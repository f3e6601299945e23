/**
 * The integer parts of the codec's entry points as they run, step by step:
 * the two decoders up to the colour list, the hash build of the encoder and
 * its component-count validation.
 */
module Codec {
  import opened Results
  import opened Packing
  import opened Layout
  import Base83

  /** The AC fields of components 1 to count, decoded in order; the first bad field is the error. */
  method DecodeAc(hash: string, count: nat) returns (r: Result<seq<Rgb>>)
    requires 4 + (count + 1) * 2 <= |hash|
    ensures r == AcFields(hash, count)
  {
    var ac: seq<Rgb> := [];
    for component := 1 to count + 1
      invariant AcFields(hash, component - 1) == Ok(ac)
    {
      var acValue := Base83.Decode(hash[4 + component * 2 .. 4 + (component + 1) * 2]);
      if acValue.Err? {
        AcFieldsError(hash, component, count);
        return Err(acValue.error);
      }
      AcFieldsSnoc(hash, component, ac, acValue.value);
      ac := ac + [UnpackAc(acValue.value)];
    }
    return Ok(ac);
  }

  /**
   * What both decoders do after reading the grid: the max-AC symbol, the
   * length check, the DC field, then the AC fields one component at a time.
   */
  method DecodeBody(hash: string, sizeX: nat, sizeY: nat) returns (r: Result<Fields>)
    requires 2 <= |hash| && 1 <= sizeX && 1 <= sizeY
    ensures r == ParseBody(hash, sizeX, sizeY)
  {
    var quantMax :- Base83.Decode(hash[1..2]);
    if |hash| != HashLength(sizeX, sizeY) {
      return Err(HashLengthMismatch);
    }
    var dcValue :- Base83.Decode(hash[2..6]);
    var ac :- DecodeAc(hash, sizeX * sizeY - 1);
    return Ok(Fields(sizeX, sizeY, quantMax, UnpackDc(dcValue), ac));
  }

  /** The dense decoder up to its colour list: too short a hash is rejected first. */
  method Decode(hash: string) returns (r: Result<Fields>)
    ensures r == Parse(hash)
  {
    if |hash| < 6 {
      return Err(HashTooShort);
    }
    var sizeInfo :- Base83.Decode(hash[..1]);
    ParseThroughBody(hash);
    r := DecodeBody(hash, GridSize(sizeInfo).0, GridSize(sizeInfo).1);
  }

  /** The swatch decoder up to its colour list: a missing symbol is the first error. */
  method FakeDecode(hash: string) returns (r: Result<Fields>)
    ensures r == ParseSwatch(hash)
  {
    if |hash| == 0 {
      return Err(MissingCharacter);
    }
    var sizeInfo :- Base83.Decode(hash[..1]);
    if |hash| < 2 {
      return Err(MissingCharacter);
    }
    ParseThroughBody(hash);
    r := DecodeBody(hash, GridSize(sizeInfo).0, GridSize(sizeInfo).1);
  }

  /** The final hash build: size, max-AC and DC symbols, then each AC term's two symbols. */
  method BuildHash(f: Fields) returns (r: Result<string>)
    ensures r == Assemble(f)
  {
    var size :- Base83.Encode(SizeInfo(f.sizeX, f.sizeY), 1);
    var quant :- Base83.Encode(f.quantMax, 1);
    var dc :- Base83.Encode(PackDc(f.dc), 4);
    var hash := size + quant + dc;
    ghost var text := "";
    for i := 0 to |f.ac|
      invariant AcText(f.ac[..i]) == Ok(text) && hash == size + quant + dc + text
    {
      var pair := Base83.Encode(PackAc(f.ac[i]), 2);
      if pair.Err? {
        AcTextError(f.ac, i);
        return Err(pair.error);
      }
      AcTextSnoc(f.ac, i, text, pair.value);
      hash := hash + pair.value;
      text := text + pair.value;
    }
    assert f.ac[..|f.ac|] == f.ac;
    AssembledFrom(f, size, quant, dc, text);
    return Ok(hash);
  }

  /**
   * The integer stage of the encoder: counts outside [1,9] are refused;
   * otherwise the quantised fields, clamped into range by the floating-point
   * stage, become a hash that both decoders read back unchanged.
   */
  method Encode(componentsX: int, componentsY: int, quantMax: nat, dc: Rgb, ac: seq<Rgb>)
    returns (r: Result<string>)
    requires quantMax <= 82 && IsByteTriple(dc)
    requires forall k | 0 <= k < |ac| :: IsAcDigits(ac[k])
    requires 1 <= componentsX <= 9 && 1 <= componentsY <= 9 ==> |ac| == componentsX * componentsY - 1
    ensures r.Err? <==> componentsX < 1 || componentsX > 9 || componentsY < 1 || componentsY > 9
    ensures r.Err? ==> r.error == InvalidComponentCount
    ensures r.Ok? ==>
      && |r.value| == HashLength(componentsX, componentsY)
      && Parse(r.value) == Ok(Fields(componentsX, componentsY, quantMax, dc, ac))
      && ParseSwatch(r.value) == Ok(Fields(componentsX, componentsY, quantMax, dc, ac))
  {
    if componentsX < 1 || componentsX > 9 || componentsY < 1 || componentsY > 9 {
      return Err(InvalidComponentCount);
    }
    var f := Fields(componentsX, componentsY, quantMax, dc, ac);
    AssembleWellFormed(f);
    r := BuildHash(f);
  }
}
