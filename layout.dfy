/**
 * The layout of a BlurHash token: one size symbol, one quantised max-AC symbol,
 * four DC symbols and two symbols per AC term. `Parse` and `ParseSwatch` are
 * the integer layer of the two decoders, `Assemble` the encoder's hash build.
 */
module Layout {
  import opened Results
  import opened Packing
  import Base83
  import DivMod
  import Seqs

  /**
   * The quantised integers a hash carries: the component grid, the quantised
   * maximum AC magnitude, the DC channels and one digit triple per AC term in
   * row-major order without the DC term.
   */
  datatype Fields = Fields(sizeX: nat, sizeY: nat, quantMax: nat, dc: Rgb, ac: seq<Rgb>)

  /** What the encoder produces: the floating-point stage clamps every index into range. */
  predicate WellFormed(f: Fields)
  {
    && 1 <= f.sizeX <= 9 && 1 <= f.sizeY <= 9
    && f.quantMax <= 82
    && IsByteTriple(f.dc)
    && |f.ac| == f.sizeX * f.sizeY - 1
    && forall k | 0 <= k < |f.ac| :: IsAcDigits(f.ac[k])
  }

  /** The hash length that a grid of sizeX by sizeY components requires. */
  function HashLength(sizeX: nat, sizeY: nat): nat
  {
    4 + 2 * (sizeX * sizeY)
  }

  // ----- decoding -----

  /** The component counts (size_x, size_y) read from the first symbol alone. */
  function Components(hash: string): (r: Result<(nat, nat)>)
    ensures r.Ok? ==> 1 <= r.value.0 <= 9 && 1 <= r.value.1 <= 10
  {
    if |hash| == 0 then Err(MissingCharacter)
    else
      var sizeInfo :- Base83.Decoded(hash[..1]);
      Packing.GridSizeRange(sizeInfo);
      Ok(GridSize(sizeInfo))
  }

  /** The first `count` AC terms, the term of component c being the symbols at [4 + 2c, 4 + 2(c + 1)). */
  function AcFields(hash: string, count: nat): (r: Result<seq<Rgb>>)
    requires 4 + (count + 1) * 2 <= |hash|
    ensures r.Ok? ==> |r.value| == count
  {
    if count == 0 then Ok([])
    else
      var previous :- AcFields(hash, count - 1);
      var acValue :- Base83.Decoded(hash[4 + count * 2 .. 4 + (count + 1) * 2]);
      Ok(previous + [UnpackAc(acValue)])
  }

  /**
   * What both decoders do once they know the grid size: read the max-AC
   * symbol, check the length against the header, then unpack DC and AC terms.
   */
  function ParseBody(hash: string, sizeX: nat, sizeY: nat): (r: Result<Fields>)
    requires 2 <= |hash| && 1 <= sizeX && 1 <= sizeY
  {
    var quantMax :- Base83.Decoded(hash[1..2]);
    if |hash| != HashLength(sizeX, sizeY) then Err(HashLengthMismatch)
    else
      var dcValue :- Base83.Decoded(hash[2..6]);
      var ac :- AcFields(hash, sizeX * sizeY - 1);
      Ok(Fields(sizeX, sizeY, quantMax, UnpackDc(dcValue), ac))
  }

  /** The integer layer of the dense decoder: a short hash is rejected before anything is read. */
  function Parse(hash: string): Result<Fields>
  {
    if |hash| < 6 then Err(HashTooShort)
    else
      var size :- Components(hash);
      ParseBody(hash, size.0, size.1)
  }

  /** The integer layer of the swatch decoder: no minimum-length check of its own. */
  function ParseSwatch(hash: string): Result<Fields>
  {
    var size :- Components(hash);
    if |hash| < 2 then Err(MissingCharacter)
    else ParseBody(hash, size.0, size.1)
  }

  /**
   * The hashes the dense decoder accepts: at least six symbols, all of them in
   * the alphabet, and exactly as many as the grid of the first symbol requires.
   */
  predicate Accepted(hash: string)
  {
    && |hash| >= 6
    && Base83.IsNumeral(hash)
    && Base83.Value(hash[0]).Some?
    && var size := GridSize(Base83.Value(hash[0]).value);
       |hash| == HashLength(size.0, size.1)
  }

  // ----- encoding -----

  /** The AC terms packed and encoded two symbols each, in order. */
  function AcText(ac: seq<Rgb>): (r: Result<string>)
    ensures r.Ok? ==> |r.value| == 2 * |ac|
  {
    if ac == [] then Ok("")
    else
      var previous :- AcText(ac[..|ac| - 1]);
      var field :- Base83.Encoded(PackAc(ac[|ac| - 1]), 2);
      Ok(previous + field)
  }

  /** The encoder's hash build: size symbol, max-AC symbol, four DC symbols, then the AC terms. */
  function Assemble(f: Fields): Result<string>
  {
    var size :- Base83.Encoded(SizeInfo(f.sizeX, f.sizeY), 1);
    var quant :- Base83.Encoded(f.quantMax, 1);
    var dc :- Base83.Encoded(PackDc(f.dc), 4);
    var ac :- AcText(f.ac);
    Ok(size + quant + dc + ac)
  }

  // ----- properties -----

  /** With digits in [0,18] every AC term encodes. */
  lemma {:induction false} AcTextEncodes(ac: seq<Rgb>)
    requires forall k | 0 <= k < |ac| :: IsAcDigits(ac[k])
    ensures AcText(ac).Ok?
    decreases |ac|
  {
    if ac != [] {
      AcTextEncodes(ac[..|ac| - 1]);
      AcRoundTrip(ac[|ac| - 1]);
    }
  }

  /** One AC term more: the AC text of the first i + 1 terms is that of the first i followed by the encoding of term i. */
  lemma {:induction false} AcTextSnoc(ac: seq<Rgb>, i: nat, text: string, pair: string)
    requires i < |ac| && AcText(ac[..i]) == Ok(text) && Base83.Encoded(PackAc(ac[i]), 2) == Ok(pair)
    ensures AcText(ac[..i + 1]) == Ok(text + pair)
  {
    assert ac[..i + 1][..i] == ac[..i];
  }

  /** The AC text of a longer sequence ends in the encoding of its last term. */
  lemma {:induction false} AcTextUnsnoc(previous: seq<Rgb>, c: Rgb, text: string)
    requires AcText(previous + [c]) == Ok(text)
    ensures |text| >= 2
    ensures AcText(previous) == Ok(text[..|text| - 2])
    ensures Base83.Encoded(PackAc(c), 2) == Ok(text[|text| - 2..])
  {
    assert (previous + [c])[..|previous|] == previous;
    var head := AcText(previous).value;
    var pair := Base83.Encoded(PackAc(c), 2).value;
    assert text == head + pair;
    Seqs.AppendParts(head, pair);
  }

  /** A decodable AC field extends the AC terms read so far by its unpacked digits. */
  lemma {:induction false} AcFieldsSnoc(hash: string, k: nat, ac: seq<Rgb>, v: nat)
    requires 1 <= k && 4 + (k + 1) * 2 <= |hash|
    requires AcFields(hash, k - 1) == Ok(ac)
    requires Base83.Decoded(hash[4 + k * 2 .. 4 + (k + 1) * 2]) == Ok(v)
    ensures AcFields(hash, k) == Ok(ac + [UnpackAc(v)])
  {
  }

  /** The first AC field that fails to decode is the error of every longer run of AC fields. */
  lemma {:induction false} AcFieldsError(hash: string, k: nat, count: nat)
    requires 1 <= k <= count && 4 + (count + 1) * 2 <= |hash|
    requires AcFields(hash, k - 1).Ok?
    requires Base83.Decoded(hash[4 + k * 2 .. 4 + (k + 1) * 2]).Err?
    ensures AcFields(hash, count) == Err(Base83.Decoded(hash[4 + k * 2 .. 4 + (k + 1) * 2]).error)
    decreases count
  {
    if count > k {
      AcFieldsError(hash, k, count - 1);
    }
  }

  /** The first AC term that fails to encode makes the whole AC text fail. */
  lemma {:induction false} AcTextError(ac: seq<Rgb>, i: nat)
    requires i < |ac| && AcText(ac[..i]).Ok? && Base83.Encoded(PackAc(ac[i]), 2).Err?
    ensures AcText(ac) == Err(ValueTooLong)
    decreases |ac|
  {
    var init := ac[..|ac| - 1];
    if i < |ac| - 1 {
      assert init[..i] == ac[..i] && init[i] == ac[i];
      AcTextError(init, i);
    } else {
      assert init == ac[..i];
    }
  }

  /** A hash built from its four parts gives each part back at its offset. */
  lemma {:induction false} HashPieces(size: string, quant: string, dc: string, text: string)
    requires |size| == 1 && |quant| == 1 && |dc| == 4
    ensures var hash := size + quant + dc + text;
      && hash[..1] == size && hash[1..2] == quant && hash[2..6] == dc
      && hash[6 .. 6 + |text|] == text
  {
  }

  /** Every hash of at least six symbols is its four parts put together. */
  lemma {:induction false} HashSplit(hash: string)
    requires |hash| >= 6
    ensures hash == hash[..1] + hash[1..2] + hash[2..6] + hash[6..|hash|]
  {
  }

  /** The text of the first c components is that of the first c - 1 followed by the symbols of component c. */
  lemma {:induction false} PairExtend(hash: string, c: nat)
    requires 1 <= c && 4 + (c + 1) * 2 <= |hash|
    ensures hash[6 .. 6 + 2 * c] == hash[6 .. 6 + 2 * (c - 1)] + hash[4 + c * 2 .. 4 + (c + 1) * 2]
  {
  }

  /** The same split, read from the text of the first c components. */
  lemma {:induction false} PairSplit(hash: string, c: nat)
    requires 1 <= c && 4 + (c + 1) * 2 <= |hash|
    ensures var text := hash[6 .. 6 + 2 * c];
      && text[..|text| - 2] == hash[6 .. 6 + 2 * (c - 1)]
      && text[|text| - 2..] == hash[4 + c * 2 .. 4 + (c + 1) * 2]
  {
    PairExtend(hash, c);
    Seqs.AppendParts(hash[6 .. 6 + 2 * (c - 1)], hash[4 + c * 2 .. 4 + (c + 1) * 2]);
  }

  /** The AC terms of the first `count` components are those of the first `count - 1` and the term of component `count`. */
  lemma {:induction false} AcFieldsUnsnoc(hash: string, ac: seq<Rgb>, count: nat)
    requires 1 <= count && 4 + (count + 1) * 2 <= |hash| && AcFields(hash, count) == Ok(ac)
    ensures AcFields(hash, count - 1) == Ok(ac[..count - 1])
    ensures Base83.Decoded(hash[4 + count * 2 .. 4 + (count + 1) * 2]).Ok?
    ensures ac == ac[..count - 1] + [UnpackAc(Base83.Decoded(hash[4 + count * 2 .. 4 + (count + 1) * 2]).value)]
  {
    var previous := AcFields(hash, count - 1).value;
    assert ac[..count - 1] == previous;
  }

  /** Two hashes that agree on the first c - 1 AC fields and on field c agree on the first c. */
  lemma {:induction false} PairsAgree(h1: string, h2: string, c: nat)
    requires 1 <= c && 4 + (c + 1) * 2 <= |h1| && 4 + (c + 1) * 2 <= |h2|
    requires h1[6 .. 6 + 2 * (c - 1)] == h2[6 .. 6 + 2 * (c - 1)]
    requires h1[4 + c * 2 .. 4 + (c + 1) * 2] == h2[4 + c * 2 .. 4 + (c + 1) * 2]
    ensures h1[6 .. 6 + 2 * c] == h2[6 .. 6 + 2 * c]
  {
    PairExtend(h1, c);
    PairExtend(h2, c);
  }

  /** Two AC fields of two symbols that unpack to the same digits are the same symbols. */
  lemma {:induction false} AcPairInjective(p1: string, p2: string)
    requires |p1| == |p2| && Base83.Decoded(p1).Ok? && Base83.Decoded(p2).Ok?
    requires UnpackAc(Base83.Decoded(p1).value) == UnpackAc(Base83.Decoded(p2).value)
    ensures p1 == p2
  {
    UnpackAcInjective(Base83.Decoded(p1).value, Base83.Decoded(p2).value);
    Base83.DecodedInjective(p1, p2);
  }

  /** Two hashes whose first `count` AC terms read back the same also read back the same first count - 1. */
  lemma {:induction false} AcFieldsPrefixAgree(h1: string, h2: string, count: nat)
    requires 1 <= count && 4 + (count + 1) * 2 <= |h1| && 4 + (count + 1) * 2 <= |h2|
    requires AcFields(h1, count).Ok? && AcFields(h1, count) == AcFields(h2, count)
    ensures AcFields(h1, count - 1).Ok? && AcFields(h1, count - 1) == AcFields(h2, count - 1)
  {
    var ac := AcFields(h1, count).value;
    AcFieldsUnsnoc(h1, ac, count);
    AcFieldsUnsnoc(h2, ac, count);
  }

  /** The step of AcFieldsInjective: agreeing on c - 1 AC fields and reading the same c terms, two hashes agree on c fields. */
  lemma {:induction false} AcFieldsStepInjective(h1: string, h2: string, count: nat)
    requires 1 <= count && 4 + (count + 1) * 2 <= |h1| && 4 + (count + 1) * 2 <= |h2|
    requires AcFields(h1, count).Ok? && AcFields(h1, count) == AcFields(h2, count)
    requires h1[6 .. 6 + 2 * (count - 1)] == h2[6 .. 6 + 2 * (count - 1)]
    ensures h1[6 .. 6 + 2 * count] == h2[6 .. 6 + 2 * count]
  {
    var ac := AcFields(h1, count).value;
    AcFieldsUnsnoc(h1, ac, count);
    AcFieldsUnsnoc(h2, ac, count);
    var p1, p2 := h1[4 + count * 2 .. 4 + (count + 1) * 2], h2[4 + count * 2 .. 4 + (count + 1) * 2];
    Seqs.SnocLast(ac, ac[..count - 1], UnpackAc(Base83.Decoded(p1).value));
    Seqs.SnocLast(ac, ac[..count - 1], UnpackAc(Base83.Decoded(p2).value));
    AcPairInjective(p1, p2);
    PairsAgree(h1, h2, count);
  }

  /** Two hashes whose first `count` AC terms read back the same carry the same symbols for them. */
  lemma {:induction false} AcFieldsInjective(h1: string, h2: string, count: nat)
    requires 4 + (count + 1) * 2 <= |h1| && 4 + (count + 1) * 2 <= |h2|
    requires AcFields(h1, count).Ok? && AcFields(h1, count) == AcFields(h2, count)
    ensures h1[6 .. 6 + 2 * count] == h2[6 .. 6 + 2 * count]
    decreases count
  {
    if count > 0 {
      AcFieldsPrefixAgree(h1, h2, count);
      AcFieldsInjective(h1, h2, count - 1);
      AcFieldsStepInjective(h1, h2, count);
    } else {
      assert h1[6 .. 6 + 2 * count] == [] == h2[6 .. 6 + 2 * count];
    }
  }

  /** One AC term more: component `count` holding the encoding of a term is read back as that term. */
  lemma {:induction false} AcFieldsOfTextStep(hash: string, previous: seq<Rgb>, c: Rgb, count: nat)
    requires 1 <= count && 4 + (count + 1) * 2 <= |hash|
    requires AcFields(hash, count - 1) == Ok(previous) && IsAcDigits(c)
    requires Base83.Encoded(PackAc(c), 2) == Ok(hash[4 + count * 2 .. 4 + (count + 1) * 2])
    ensures AcFields(hash, count) == Ok(previous + [c])
  {
    AcRoundTrip(c);
    Base83.EncodedRoundTrip(PackAc(c), 2);
  }

  /** A hash whose AC symbols are the encoding of AC terms with digits in [0,18] is read back as those terms. */
  lemma {:induction false} AcFieldsOfText(hash: string, ac: seq<Rgb>, count: nat)
    requires count <= |ac| && 4 + (count + 1) * 2 <= |hash|
    requires forall k | 0 <= k < |ac| :: IsAcDigits(ac[k])
    requires AcText(ac[..count]) == Ok(hash[6 .. 6 + 2 * count])
    ensures AcFields(hash, count) == Ok(ac[..count])
    decreases count
  {
    if count > 0 {
      var previous := ac[..count - 1];
      Seqs.TakeSnoc(ac, count - 1);
      AcTextUnsnoc(previous, ac[count - 1], hash[6 .. 6 + 2 * count]);
      PairSplit(hash, count);
      assert previous == ac[..count][..count - 1];
      AcFieldsOfText(hash, ac, count - 1);
      AcFieldsOfTextStep(hash, previous, ac[count - 1], count);
    }
  }

  /** The grid read back from a size symbol that encodes a grid of at most 9 by 9. */
  lemma {:induction false} ComponentsOf(hash: string, sizeX: nat, sizeY: nat)
    requires 1 <= sizeX <= 9 && 1 <= sizeY <= 9 && |hash| >= 1
    requires Base83.Decoded(hash[..1]) == Ok(SizeInfo(sizeX, sizeY))
    ensures Components(hash) == Ok((sizeX, sizeY))
  {
    SizeRoundTrip(sizeX, sizeY);
  }

  /** Once the grid is known, a hash whose fields decode to the packings of well-formed fields is read back as those fields. */
  lemma {:induction false} ParseBodyOf(hash: string, f: Fields)
    requires WellFormed(f) && |hash| == HashLength(f.sizeX, f.sizeY)
    requires Base83.Decoded(hash[1..2]) == Ok(f.quantMax)
    requires Base83.Decoded(hash[2..6]) == Ok(PackDc(f.dc))
    requires AcFields(hash, |f.ac|) == Ok(f.ac)
    ensures ParseBody(hash, f.sizeX, f.sizeY) == Ok(f)
  {
    DcRoundTrip(f.dc);
  }

  /** A hash whose fields decode to the packings of well-formed fields is read back as those fields by both decoders. */
  lemma {:induction false} ParseOfFields(hash: string, f: Fields)
    requires WellFormed(f) && |hash| == HashLength(f.sizeX, f.sizeY)
    requires Base83.Decoded(hash[..1]) == Ok(SizeInfo(f.sizeX, f.sizeY))
    requires Base83.Decoded(hash[1..2]) == Ok(f.quantMax)
    requires Base83.Decoded(hash[2..6]) == Ok(PackDc(f.dc))
    requires AcFields(hash, |f.ac|) == Ok(f.ac)
    ensures Components(hash) == Ok((f.sizeX, f.sizeY))
    ensures Parse(hash) == Ok(f) && ParseSwatch(hash) == Ok(f)
  {
    ComponentsOf(hash, f.sizeX, f.sizeY);
    ParseBodyOf(hash, f);
  }

  /** Behind any six header symbols, the encoding of AC terms with digits in [0,18] is read back as those terms. */
  lemma {:induction false} AssembledAcFields(ac: seq<Rgb>, size: string, quant: string, dc: string, text: string)
    requires |size| == 1 && |quant| == 1 && |dc| == 4
    requires forall k | 0 <= k < |ac| :: IsAcDigits(ac[k])
    requires AcText(ac) == Ok(text)
    ensures |size + quant + dc + text| == 6 + 2 * |ac|
    ensures AcFields(size + quant + dc + text, |ac|) == Ok(ac)
  {
    HashPieces(size, quant, dc, text);
    assert ac[..|ac|] == ac;
    AcFieldsOfText(size + quant + dc + text, ac, |ac|);
  }

  /** The four parts of an assembled hash decode to the fields they were built from. */
  lemma {:induction false} AssembledParts(f: Fields, size: string, quant: string, dc: string, text: string)
    requires WellFormed(f)
    requires Base83.Encoded(SizeInfo(f.sizeX, f.sizeY), 1) == Ok(size)
    requires Base83.Encoded(f.quantMax, 1) == Ok(quant)
    requires Base83.Encoded(PackDc(f.dc), 4) == Ok(dc)
    requires AcText(f.ac) == Ok(text)
    ensures var hash := size + quant + dc + text;
      && |hash| == HashLength(f.sizeX, f.sizeY)
      && Base83.Decoded(hash[..1]) == Ok(SizeInfo(f.sizeX, f.sizeY))
      && Base83.Decoded(hash[1..2]) == Ok(f.quantMax)
      && Base83.Decoded(hash[2..6]) == Ok(PackDc(f.dc))
      && AcFields(hash, |f.ac|) == Ok(f.ac)
  {
    SizeRoundTrip(f.sizeX, f.sizeY);
    DcRoundTrip(f.dc);
    Pow83Values();
    Base83.EncodedRoundTrip(SizeInfo(f.sizeX, f.sizeY), 1);
    Base83.EncodedRoundTrip(f.quantMax, 1);
    Base83.EncodedRoundTrip(PackDc(f.dc), 4);
    HashPieces(size, quant, dc, text);
    AssembledAcFields(f.ac, size, quant, dc, text);
  }

  /** The hash build put together from its four encoded parts. */
  lemma {:induction false} AssembledFrom(f: Fields, size: string, quant: string, dc: string, text: string)
    requires Base83.Encoded(SizeInfo(f.sizeX, f.sizeY), 1) == Ok(size)
    requires Base83.Encoded(f.quantMax, 1) == Ok(quant)
    requires Base83.Encoded(PackDc(f.dc), 4) == Ok(dc)
    requires AcText(f.ac) == Ok(text)
    ensures Assemble(f) == Ok(size + quant + dc + text)
  {
  }

  /** A well-formed set of fields assembles into a hash of the length its grid requires, which both decoders read back unchanged. */
  lemma {:induction false} AssembleWellFormed(f: Fields)
    requires WellFormed(f)
    ensures Assemble(f).Ok?
    ensures |Assemble(f).value| == HashLength(f.sizeX, f.sizeY)
    ensures Components(Assemble(f).value) == Ok((f.sizeX, f.sizeY))
    ensures Parse(Assemble(f).value) == Ok(f)
    ensures ParseSwatch(Assemble(f).value) == Ok(f)
  {
    SizeRoundTrip(f.sizeX, f.sizeY);
    DcRoundTrip(f.dc);
    Pow83Values();
    AcTextEncodes(f.ac);
    var size := Base83.Encoded(SizeInfo(f.sizeX, f.sizeY), 1).value;
    var quant := Base83.Encoded(f.quantMax, 1).value;
    var dc := Base83.Encoded(PackDc(f.dc), 4).value;
    var text := AcText(f.ac).value;
    AssembledFrom(f, size, quant, dc, text);
    AssembledParts(f, size, quant, dc, text);
    ParseOfFields(size + quant + dc + text, f);
  }

  /** The symbols of a hash decode, field by field, to the fields f. */
  predicate Carries(hash: string, f: Fields)
  {
    && |hash| == 6 + 2 * |f.ac|
    && Base83.Decoded(hash[..1]).Ok? && GridSize(Base83.Decoded(hash[..1]).value) == (f.sizeX, f.sizeY)
    && Base83.Decoded(hash[1..2]) == Ok(f.quantMax)
    && Base83.Decoded(hash[2..6]).Ok? && UnpackDc(Base83.Decoded(hash[2..6]).value) == f.dc
    && AcFields(hash, |f.ac|) == Ok(f.ac)
  }

  /** What a successful parse says about each field of the hash. */
  lemma {:induction false} ParsedFields(hash: string, f: Fields)
    requires Parse(hash) == Ok(f)
    ensures |hash| == HashLength(f.sizeX, f.sizeY) && 1 <= f.sizeX <= 9 && 1 <= f.sizeY <= 10
    ensures |f.ac| + 1 == f.sizeX * f.sizeY
    ensures Carries(hash, f)
  {
  }

  /** Two hashes that agree on every decoded field are the same hash. */
  lemma {:induction false} HeaderInjective(h1: string, h2: string)
    requires |h1| >= 6 && |h2| >= 6
    requires Base83.Decoded(h1[..1]).Ok? && Base83.Decoded(h2[..1]).Ok?
    requires GridSize(Base83.Decoded(h1[..1]).value) == GridSize(Base83.Decoded(h2[..1]).value)
    requires Base83.Decoded(h1[1..2]).Ok? && Base83.Decoded(h1[1..2]) == Base83.Decoded(h2[1..2])
    requires Base83.Decoded(h1[2..6]).Ok? && Base83.Decoded(h2[2..6]).Ok?
    requires UnpackDc(Base83.Decoded(h1[2..6]).value) == UnpackDc(Base83.Decoded(h2[2..6]).value)
    ensures h1[..1] == h2[..1] && h1[1..2] == h2[1..2] && h1[2..6] == h2[2..6]
  {
    GridSizeInjective(Base83.Decoded(h1[..1]).value, Base83.Decoded(h2[..1]).value);
    Base83.DecodedInjective(h1[..1], h2[..1]);
    Base83.DecodedInjective(h1[1..2], h2[1..2]);
    UnpackDcInjective(Base83.Decoded(h1[2..6]).value, Base83.Decoded(h2[2..6]).value);
    Base83.DecodedInjective(h1[2..6], h2[2..6]);
  }

  /** Two hashes with the same header and AC symbols are the same hash. */
  lemma {:induction false} PartsInjective(h1: string, h2: string, count: nat)
    requires |h1| == 6 + 2 * count && |h2| == 6 + 2 * count
    ensures (h1[..1] == h2[..1] && h1[1..2] == h2[1..2] && h1[2..6] == h2[2..6]
             && h1[6 .. 6 + 2 * count] == h2[6 .. 6 + 2 * count]) ==> h1 == h2
  {
    HashSplit(h1);
    HashSplit(h2);
  }

  /** Two hashes that carry the same fields have the same header symbols. */
  lemma {:induction false} CarriesHeader(h1: string, h2: string, f: Fields)
    requires Carries(h1, f) && Carries(h2, f)
    ensures h1[..1] == h2[..1] && h1[1..2] == h2[1..2] && h1[2..6] == h2[2..6]
  {
    HeaderInjective(h1, h2);
  }

  /** Two hashes whose AC symbols decode to the same terms have the same AC symbols. */
  lemma {:induction false} CarriesAc(h1: string, h2: string, ac: seq<Rgb>)
    requires |h1| == 6 + 2 * |ac| && |h2| == 6 + 2 * |ac|
    requires AcFields(h1, |ac|) == Ok(ac) && AcFields(h2, |ac|) == Ok(ac)
    ensures h1[6 .. 6 + 2 * |ac|] == h2[6 .. 6 + 2 * |ac|]
  {
    AcFieldsInjective(h1, h2, |ac|);
  }

  /** Only one hash carries any given fields. */
  lemma {:induction false} CarriesInjective(h1: string, h2: string, f: Fields)
    requires Carries(h1, f) && Carries(h2, f)
    ensures h1 == h2
  {
    PartsInjective(h1, h2, |f.ac|);
    CarriesHeader(h1, h2, f);
    CarriesAc(h1, h2, f.ac);
  }

  /** A hash is determined by what it decodes to: two hashes that parse to the same fields are equal. */
  lemma {:induction false} ParseInjective(h1: string, h2: string)
    requires Parse(h1).Ok? && Parse(h1) == Parse(h2)
    ensures h1 == h2
  {
    var f := Parse(h1).value;
    ParsedFields(h1, f);
    ParsedFields(h2, f);
    CarriesInjective(h1, h2, f);
  }

  /** A hash that parses to well-formed fields is the very hash those fields assemble to. */
  lemma {:induction false} AssembleCanonical(hash: string, f: Fields)
    requires Parse(hash) == Ok(f) && WellFormed(f)
    ensures Assemble(f) == Ok(hash)
  {
    AssembleWellFormed(f);
    ParseInjective(hash, Assemble(f).value);
  }

  /** Every AC term the decoders read lies within what a 2-symbol field can hold. */
  lemma {:induction false} AcFieldsBounds(hash: string, count: nat)
    requires 4 + (count + 1) * 2 <= |hash| && AcFields(hash, count).Ok?
    ensures forall k | 0 <= k < count :: IsAcField(AcFields(hash, count).value[k])
    decreases count
  {
    if count > 0 {
      var ac := AcFields(hash, count).value;
      var pair := hash[4 + count * 2 .. 4 + (count + 1) * 2];
      AcFieldsUnsnoc(hash, ac, count);
      AcFieldsBounds(hash, count - 1);
      AcFieldBounds(Base83.Decoded(pair).value);
      forall k | 0 <= k < count
        ensures IsAcField(ac[k])
      {
        if k < count - 1 {
          assert ac[k] == ac[..count - 1][k];
        }
      }
    }
  }

  /**
   * The ranges of everything a successful parse yields: up to 9 by 10
   * components, a max-AC value up to 82, a DC red channel up to 724 and AC
   * first digits up to 19.
   */
  lemma {:induction false} ParseBounds(hash: string, f: Fields)
    requires Parse(hash) == Ok(f)
    ensures 1 <= f.sizeX <= 9 && 1 <= f.sizeY <= 10 && |hash| == HashLength(f.sizeX, f.sizeY)
    ensures |f.ac| == f.sizeX * f.sizeY - 1
    ensures f.quantMax <= 82
    ensures f.dc.r <= 724 && f.dc.g <= 255 && f.dc.b <= 255
    ensures forall k | 0 <= k < |f.ac| :: IsAcField(f.ac[k])
  {
    ParsedFields(hash, f);
    Pow83Values();
    DcFieldBounds(Base83.Decoded(hash[2..6]).value);
    AcFieldsBounds(hash, |f.ac|);
  }

  /** The first `count` AC terms decode exactly when the first `count - 1` and term `count` do. */
  lemma {:induction false} AcFieldsOkStep(hash: string, count: nat)
    requires 1 <= count && 4 + (count + 1) * 2 <= |hash|
    ensures AcFields(hash, count).Ok? <==>
      AcFields(hash, count - 1).Ok? && Base83.Decoded(hash[4 + count * 2 .. 4 + (count + 1) * 2]).Ok?
  {
  }

  /** The symbols of the first c AC fields are all in the alphabet exactly when those of the first c - 1 and of field c are. */
  lemma {:induction false} NumeralStep(hash: string, c: nat)
    requires 1 <= c && 4 + (c + 1) * 2 <= |hash|
    ensures Base83.IsNumeral(hash[6 .. 6 + 2 * c]) <==>
      Base83.IsNumeral(hash[6 .. 6 + 2 * (c - 1)]) && Base83.IsNumeral(hash[4 + c * 2 .. 4 + (c + 1) * 2])
  {
    PairExtend(hash, c);
    Base83.NumeralConcat(hash[6 .. 6 + 2 * (c - 1)], hash[4 + c * 2 .. 4 + (c + 1) * 2]);
  }

  /** The AC terms decode exactly when their symbols all belong to the alphabet. */
  lemma {:induction false} AcFieldsAccepts(hash: string, count: nat)
    requires 4 + (count + 1) * 2 <= |hash|
    ensures AcFields(hash, count).Ok? <==> Base83.IsNumeral(hash[6 .. 6 + 2 * count])
    decreases count
  {
    if count > 0 {
      AcFieldsAccepts(hash, count - 1);
      AcFieldsOkStep(hash, count);
      NumeralStep(hash, count);
      Base83.DecodedAccepts(hash[4 + count * 2 .. 4 + (count + 1) * 2]);
    }
  }

  /** A hash of six symbols or more is a numeral exactly when its header fields and its AC text are. */
  lemma {:induction false} NumeralParts(hash: string)
    requires |hash| >= 6
    ensures Base83.IsNumeral(hash) <==>
      && Base83.IsNumeral(hash[..1]) && Base83.IsNumeral(hash[1..2])
      && Base83.IsNumeral(hash[2..6]) && Base83.IsNumeral(hash[6..|hash|])
  {
    HashSplit(hash);
    Base83.NumeralConcat(hash[..1] + hash[1..2] + hash[2..6], hash[6..|hash|]);
    Base83.NumeralConcat(hash[..1] + hash[1..2], hash[2..6]);
    Base83.NumeralConcat(hash[..1], hash[1..2]);
  }

  /** When the shared part of the decoders succeeds, field by field. */
  lemma {:induction false} ParseBodyOk(hash: string, sizeX: nat, sizeY: nat)
    requires 2 <= |hash| && 1 <= sizeX && 1 <= sizeY
    ensures sizeX * sizeY >= 1
    ensures ParseBody(hash, sizeX, sizeY).Ok? <==>
      && Base83.Decoded(hash[1..2]).Ok?
      && |hash| == HashLength(sizeX, sizeY)
      && Base83.Decoded(hash[2..6]).Ok?
      && AcFields(hash, sizeX * sizeY - 1).Ok?
  {
    DivMod.MulAtLeast(sizeY, sizeX);
  }

  /** The header fields and the AC text of a hash decode exactly when their symbols are in the alphabet. */
  lemma {:induction false} FieldsDecode(hash: string, count: nat)
    requires |hash| == 6 + 2 * count
    ensures Base83.Decoded(hash[..1]).Ok? <==> Base83.Value(hash[0]).Some?
    ensures Base83.Decoded(hash[..1]).Ok? ==> Base83.Decoded(hash[..1]).value == Base83.Value(hash[0]).value
    ensures Base83.Decoded(hash[..1]).Ok? <==> Base83.IsNumeral(hash[..1])
    ensures Base83.Decoded(hash[1..2]).Ok? <==> Base83.IsNumeral(hash[1..2])
    ensures Base83.Decoded(hash[2..6]).Ok? <==> Base83.IsNumeral(hash[2..6])
    ensures AcFields(hash, count).Ok? <==> Base83.IsNumeral(hash[6..|hash|])
  {
    Base83.DecodedSymbol(hash[..1]);
    Base83.DecodedAccepts(hash[..1]);
    Base83.DecodedAccepts(hash[1..2]);
    Base83.DecodedAccepts(hash[2..6]);
    AcFieldsAccepts(hash, count);
    assert hash[6 .. 6 + 2 * count] == hash[6..|hash|];
  }

  /** A hash the dense decoder reads is made of alphabet symbols and is as long as its header requires. */
  lemma {:induction false} ParsedAccepted(hash: string)
    requires Parse(hash).Ok?
    ensures Accepted(hash)
  {
    var f := Parse(hash).value;
    ParsedFields(hash, f);
    FieldsDecode(hash, |f.ac|);
    NumeralParts(hash);
  }

  /** Behind a decodable size symbol both decoders are the shared part, and on six symbols or more they agree. */
  lemma {:induction false} ParseThroughBody(hash: string)
    ensures |hash| >= 6 ==> Parse(hash) == ParseSwatch(hash)
    ensures |hash| >= 2 && Base83.Decoded(hash[..1]).Ok? ==>
      var size := GridSize(Base83.Decoded(hash[..1]).value);
      1 <= size.0 && 1 <= size.1 && ParseSwatch(hash) == ParseBody(hash, size.0, size.1)
  {
    if |hash| >= 2 && Base83.Decoded(hash[..1]).Ok? {
      GridSizeRange(Base83.Decoded(hash[..1]).value);
    }
  }

  /** Behind a size symbol, a hash of alphabet symbols as long as its grid requires passes the shared part. */
  lemma {:induction false} AcceptedBody(hash: string, sizeX: nat, sizeY: nat)
    requires |hash| >= 6 && 1 <= sizeX && 1 <= sizeY && |hash| == HashLength(sizeX, sizeY)
    requires Base83.IsNumeral(hash)
    ensures ParseBody(hash, sizeX, sizeY).Ok?
  {
    NumeralParts(hash);
    ParseBodyOk(hash, sizeX, sizeY);
    FieldsDecode(hash, sizeX * sizeY - 1);
  }

  /** A hash of alphabet symbols as long as its header requires is read by the dense decoder. */
  lemma {:induction false} AcceptedParsed(hash: string)
    requires Accepted(hash)
    ensures Parse(hash).Ok?
  {
    var sizeInfo := Base83.Value(hash[0]).value;
    Base83.DecodedSymbol(hash[..1]);
    GridSizeRange(sizeInfo);
    AcceptedBody(hash, GridSize(sizeInfo).0, GridSize(sizeInfo).1);
    ParseThroughBody(hash);
  }

  /** The dense decoder accepts exactly the hashes of six or more alphabet symbols whose length matches their header. */
  lemma {:induction false} ParseAccepts(hash: string)
    ensures Parse(hash).Ok? <==> Accepted(hash)
  {
    if Parse(hash).Ok? {
      ParsedAccepted(hash);
    }
    if Accepted(hash) {
      AcceptedParsed(hash);
    }
  }

  /** Both decoders accept the same hashes and read the same fields from them. */
  lemma {:induction false} SwatchAgrees(hash: string)
    ensures ParseSwatch(hash).Ok? <==> Parse(hash).Ok?
    ensures ParseSwatch(hash).Ok? ==> ParseSwatch(hash) == Parse(hash)
  {
    if |hash| >= 6 {
      ParseThroughBody(hash);
    } else if |hash| >= 2 && Components(hash).Ok? {
      DivMod.MulAtLeast(Components(hash).value.1, Components(hash).value.0);
      assert |hash| != HashLength(Components(hash).value.0, Components(hash).value.1);
    }
  }

  /**
   * Length rejection: a hash under six symbols fails the dense decoder's first
   * check, and once both header symbols decode, a length other than the header's
   * fails both decoders before any DC or AC field is read.
   */
  lemma {:induction false} LengthRejected(hash: string)
    ensures |hash| < 6 ==> Parse(hash) == Err(HashTooShort)
    ensures |hash| >= 2 && Base83.Decoded(hash[..1]).Ok? && Base83.Decoded(hash[1..2]).Ok? ==>
      var size := GridSize(Base83.Decoded(hash[..1]).value);
      |hash| != HashLength(size.0, size.1) ==>
        && ParseSwatch(hash) == Err(HashLengthMismatch)
        && (|hash| >= 6 ==> Parse(hash) == Err(HashLengthMismatch))
  {
    if |hash| >= 2 && Base83.Decoded(hash[..1]).Ok? {
      GridSizeRange(Base83.Decoded(hash[..1]).value);
    }
  }
}
