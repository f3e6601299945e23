/**
 * The integer packings inside a BlurHash: the size byte, the 24-bit DC colour
 * and the base-19 AC digit triple.
 */
module Packing {
  import DivMod
  import Base83

  /** Three colour channels: bytes for the DC term, quantisation digits for an AC term. */
  datatype Rgb = Rgb(r: nat, g: nat, b: nat)

  predicate IsByteTriple(c: Rgb)
  {
    c.r <= 255 && c.g <= 255 && c.b <= 255
  }

  /** The encoder clamps every AC channel index to [0,18]. */
  predicate IsAcDigits(c: Rgb)
  {
    c.r <= 18 && c.g <= 18 && c.b <= 18
  }

  /** What any 2-symbol AC field unpacks to: the decoder does not range-check the first digit. */
  predicate IsAcField(c: Rgb)
  {
    c.r <= 19 && c.g <= 18 && c.b <= 18
  }

  /** (components_x - 1) + (components_y - 1) * 9, the value of the hash's first symbol. */
  function SizeInfo(sizeX: int, sizeY: int): int
  {
    (sizeX - 1) + (sizeY - 1) * 9
  }

  /** The grid dimensions (size_x, size_y) read back from the first symbol's value. */
  function GridSize(sizeInfo: nat): (nat, nat)
  {
    (sizeInfo % 9 + 1, sizeInfo / 9 + 1)
  }

  /** (R << 16) + (G << 8) + B on non-negative integers. */
  function PackDc(c: Rgb): nat
  {
    c.r * 0x1_0000 + c.g * 0x100 + c.b
  }

  /** (v >> 16, (v >> 8) & 255, v & 255); the top channel is not masked. */
  function UnpackDc(v: nat): Rgb
  {
    Rgb(v / 0x1_0000, v / 0x100 % 0x100, v % 0x100)
  }

  /** R * 19 * 19 + G * 19 + B. */
  function PackAc(c: Rgb): nat
  {
    c.r * 361 + c.g * 19 + c.b
  }

  /** (v // 361, v // 19 % 19, v % 19); the first digit is not reduced modulo 19. */
  function UnpackAc(v: nat): Rgb
  {
    Rgb(v / 361, v / 19 % 19, v % 19)
  }

  lemma {:induction false} Pow83Values()
    ensures Base83.Pow83(1) == 83 && Base83.Pow83(2) == 6889 && Base83.Pow83(4) == 47458321
  {
    assert Base83.Pow83(2) == 83 * Base83.Pow83(1);
    assert Base83.Pow83(4) == 83 * (83 * Base83.Pow83(2));
  }

  /** A valid component grid packs into one symbol and reads back unchanged. */
  lemma {:induction false} SizeRoundTrip(sizeX: int, sizeY: int)
    requires 1 <= sizeX <= 9 && 1 <= sizeY <= 9
    ensures 0 <= SizeInfo(sizeX, sizeY) < 81 <= Base83.Pow83(1)
    ensures GridSize(SizeInfo(sizeX, sizeY)) == (sizeX, sizeY)
  {
    Pow83Values();
    DivMod.Unique(SizeInfo(sizeX, sizeY), 9, sizeY - 1, sizeX - 1);
  }

  /**
   * Any single symbol gives size_x in [1,9] and size_y in [1,10]; size_y is 10
   * exactly for the symbols of value 81 and 82.
   */
  lemma {:induction false} GridSizeRange(sizeInfo: nat)
    requires sizeInfo < 83
    ensures 1 <= GridSize(sizeInfo).0 <= 9 && 1 <= GridSize(sizeInfo).1 <= 10
    ensures GridSize(sizeInfo).1 == 10 <==> sizeInfo >= 81
    ensures sizeInfo < 81 ==> SizeInfo(GridSize(sizeInfo).0, GridSize(sizeInfo).1) == sizeInfo
  {
    DivMod.DivBelow(sizeInfo, 10, 9);
    if sizeInfo >= 81 {
      DivMod.Unique(sizeInfo, 9, 9, sizeInfo - 81);
    } else {
      DivMod.DivBelow(sizeInfo, 9, 9);
    }
  }

  /** Three bytes pack below 2^24 <= 83^4 and unpack to the same bytes. */
  lemma {:induction false} DcRoundTrip(c: Rgb)
    requires IsByteTriple(c)
    ensures PackDc(c) < 0x100_0000 <= Base83.Pow83(4)
    ensures UnpackDc(PackDc(c)) == c
  {
    Pow83Values();
    var v := PackDc(c);
    DivMod.Unique(v, 0x1_0000, c.r, c.g * 0x100 + c.b);
    DivMod.Unique(v, 0x100, c.r * 0x100 + c.g, c.b);
    DivMod.Unique(c.r * 0x100 + c.g, 0x100, c.r, c.g);
  }

  /** A value unpacks to bytes exactly when it is below 2^24, and then packing them restores it. */
  lemma {:induction false} DcCanonical(v: nat)
    ensures IsByteTriple(UnpackDc(v)) <==> v < 0x100_0000
    ensures v < 0x100_0000 ==> PackDc(UnpackDc(v)) == v
  {
    var c := UnpackDc(v);
    if v >= 0x100_0000 {
      DivMod.DivDiv(v, 0x100, 0x100);
      return;
    }
    DivMod.DivBelow(v, 0x100, 0x1_0000);
    DivMod.DivDiv(v, 0x100, 0x100);
    var hi := v / 0x100;
    assert hi == c.r * 0x100 + c.g;
    assert v == hi * 0x100 + c.b;
  }

  /** Any 4-symbol DC field unpacks to a red channel of at most 724, green and blue bytes. */
  lemma {:induction false} DcFieldBounds(v: nat)
    requires v < Base83.Pow83(4)
    ensures UnpackDc(v).r <= 724 && UnpackDc(v).g <= 255 && UnpackDc(v).b <= 255
  {
    Pow83Values();
    DivMod.DivBelow(v, 725, 0x1_0000);
  }

  /** Three digits in [0,18] pack below 19^3 = 6859 <= 83^2 and unpack to the same digits. */
  lemma {:induction false} AcRoundTrip(c: Rgb)
    requires IsAcDigits(c)
    ensures PackAc(c) < 6859 <= Base83.Pow83(2)
    ensures UnpackAc(PackAc(c)) == c
  {
    Pow83Values();
    var v := PackAc(c);
    DivMod.Unique(v, 361, c.r, c.g * 19 + c.b);
    DivMod.Unique(v, 19, c.r * 19 + c.g, c.b);
    DivMod.Unique(c.r * 19 + c.g, 19, c.r, c.g);
  }

  /** A value unpacks to digits in [0,18] exactly when it is below 19^3 = 6859, and then packing them restores it. */
  lemma {:induction false} AcCanonical(v: nat)
    ensures IsAcDigits(UnpackAc(v)) <==> v < 6859
    ensures v < 6859 ==> PackAc(UnpackAc(v)) == v
  {
    var c := UnpackAc(v);
    if v >= 6859 {
      DivMod.DivDiv(v, 19, 19);
      return;
    }
    DivMod.DivBelow(v, 19, 361);
    DivMod.DivDiv(v, 19, 19);
    var hi := v / 19;
    assert hi == c.r * 19 + c.g;
    assert v == hi * 19 + c.b;
  }

  /** Any 2-symbol AC field unpacks to a first digit of at most 19 and two digits in [0,18]. */
  lemma {:induction false} AcFieldBounds(v: nat)
    requires v < Base83.Pow83(2)
    ensures IsAcField(UnpackAc(v))
  {
    Pow83Values();
    DivMod.DivBelow(v, 20, 361);
  }

  /** Distinct size symbol values give distinct grids. */
  lemma {:induction false} GridSizeInjective(v: nat, w: nat)
    requires GridSize(v) == GridSize(w)
    ensures v == w
  {
    assert v == v / 9 * 9 + v % 9;
    assert w == w / 9 * 9 + w % 9;
  }

  /** Distinct DC values unpack to distinct channel triples, masked or not. */
  lemma {:induction false} UnpackDcInjective(v: nat, w: nat)
    requires UnpackDc(v) == UnpackDc(w)
    ensures v == w
  {
    DivMod.DivDiv(v, 0x100, 0x100);
    DivMod.DivDiv(w, 0x100, 0x100);
    assert v / 0x100 == v / 0x100 / 0x100 * 0x100 + v / 0x100 % 0x100;
    assert w / 0x100 == w / 0x100 / 0x100 * 0x100 + w / 0x100 % 0x100;
    assert v == v / 0x100 * 0x100 + v % 0x100;
    assert w == w / 0x100 * 0x100 + w % 0x100;
  }

  /** Distinct AC values unpack to distinct digit triples, in range or not. */
  lemma {:induction false} UnpackAcInjective(v: nat, w: nat)
    requires UnpackAc(v) == UnpackAc(w)
    ensures v == w
  {
    DivMod.DivDiv(v, 19, 19);
    DivMod.DivDiv(w, 19, 19);
    assert v / 19 == v / 19 / 19 * 19 + v / 19 % 19;
    assert w / 19 == w / 19 / 19 * 19 + w / 19 % 19;
    assert v == v / 19 * 19 + v % 19;
    assert w == w / 19 * 19 + w % 19;
  }
}
