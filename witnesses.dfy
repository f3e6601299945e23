/**
 * Concrete hashes and fields that show the decoders' behaviour at the edges of
 * the format, as the code is written.
 */
module Witnesses {
  import opened Results
  import opened Packing
  import opened Layout
  import Base83

  /** The largest single symbol and the smallest, and the first value one symbol cannot hold. */
  lemma {:induction false} SingleSymbols()
    ensures Base83.Encoded(82, 1) == Ok("~") && Base83.Decoded("~") == Ok(82)
    ensures Base83.Encoded(0, 1) == Ok("0") && Base83.Decoded("0") == Ok(0)
    ensures Base83.Encoded(83, 1) == Err(ValueTooLong)
  {
    Pow83Values();
    assert "~"[..0] == [] && "0"[..0] == [];
    Base83.EncodedInverse("~");
    Base83.EncodedInverse("0");
  }

  /** An AC field of two top symbols reads back a first digit of 19, one more than the encoder ever writes. */
  lemma {:induction false} AcFieldBeyondDigits()
    ensures Base83.Decoded("~~") == Ok(6888)
    ensures UnpackAc(6888) == Rgb(19, 1, 10) && IsAcField(UnpackAc(6888)) && !IsAcDigits(UnpackAc(6888))
  {
    assert "~~"[..1] == "~" && "~"[..0] == [];
  }

  /** A DC field of four top symbols reads back a red channel of 724: the decoder does not mask it to a byte. */
  lemma {:induction false} DcFieldBeyondByte()
    ensures Base83.Decoded("~~~~") == Ok(47458320)
    ensures UnpackDc(47458320) == Rgb(724, 40, 16) && !IsByteTriple(UnpackDc(47458320))
  {
    assert "~~~~"[..3] == "~~~" && "~~~"[..2] == "~~" && "~~"[..1] == "~" && "~"[..0] == [];
  }

  /** A size symbol of value 81 gives a 1 by 10 grid, which both decoders accept though the encoder refuses 10 rows. */
  lemma {:induction false} TenRowsAccepted()
    ensures var hash := "}" + "00000000000000000000000";
      && Parse(hash).Ok? && ParseSwatch(hash) == Parse(hash)
      && Parse(hash).value.sizeX == 1 && Parse(hash).value.sizeY == 10
      && !WellFormed(Parse(hash).value)
  {
    var hash := "}" + "00000000000000000000000";
    assert |hash| == 24 && hash[0] == '}';
    assert Base83.IsNumeral(hash) by {
      forall i | 0 <= i < |hash|
        ensures Base83.Value(hash[i]).Some?
      {
        if i > 0 {
          assert hash[i] == '0';
        }
      }
    }
    assert Accepted(hash);
    ParseAccepts(hash);
    SwatchAgrees(hash);
    var f := Parse(hash).value;
    ParsedFields(hash, f);
    Base83.DecodedSymbol(hash[..1]);
  }
}
