/**
 * The base-83 integer codec of BlurHash: fixed-length, big-endian numerals over
 * an 83-symbol alphabet whose order defines each symbol's value.
 */
module Base83 {
  import opened Results
  import DivMod

  /** The alphabet, in value order: digits, upper case, lower case, then 21 marks. */
  const Alphabet: string := "0123456789" + "ABCDEFGHIJKLMNOPQRSTUVWXYZ" + "abcdefghijklmnopqrstuvwxyz"
    + "#$%*+,-.:;=?@[]^_{|}~"

  /**
   * The symbol-to-value lookup table: the value of a symbol is its position in
   * the alphabet, and a character outside the alphabet has none.
   */
  function Value(c: char): (r: Option<nat>)
    ensures r.Some? ==> r.value < 83
  {
    if '0' <= c <= '9' then Some(c as nat - '0' as nat)
    else if 'A' <= c <= 'Z' then Some(c as nat - 'A' as nat + 10)
    else if 'a' <= c <= 'z' then Some(c as nat - 'a' as nat + 36)
    else match c
      case '#' => Some(62) case '$' => Some(63) case '%' => Some(64) case '*' => Some(65)
      case '+' => Some(66) case ',' => Some(67) case '-' => Some(68) case '.' => Some(69)
      case ':' => Some(70) case ';' => Some(71) case '=' => Some(72) case '?' => Some(73)
      case '@' => Some(74) case '[' => Some(75) case ']' => Some(76) case '^' => Some(77)
      case '_' => Some(78) case '{' => Some(79) case '|' => Some(80) case '}' => Some(81)
      case '~' => Some(82) case _ => None
  }

  /**
   * The symbol at position d of the alphabet, by the ranges the alphabet is
   * made of; `AlphabetSymbols` shows that it is `Alphabet[d]`.
   */
  function Symbol(d: nat): (c: char)
    requires d < 83
  {
    if d < 10 then ('0' as int + d) as char
    else if d < 36 then ('A' as int + (d - 10)) as char
    else if d < 62 then ('a' as int + (d - 36)) as char
    else match d
      case 62 => '#' case 63 => '$' case 64 => '%' case 65 => '*' case 66 => '+'
      case 67 => ',' case 68 => '-' case 69 => '.' case 70 => ':' case 71 => ';'
      case 72 => '=' case 73 => '?' case 74 => '@' case 75 => '[' case 76 => ']'
      case 77 => '^' case 78 => '_' case 79 => '{' case 80 => '|' case 81 => '}'
      case _ => '~'
  }

  lemma {:induction false} DigitSymbols()
    ensures forall i | 0 <= i < 10 :: "0123456789"[i] == Symbol(i)
  {
  }

  lemma {:induction false} UpperSymbols()
    ensures forall i | 0 <= i < 26 :: "ABCDEFGHIJKLMNOPQRSTUVWXYZ"[i] == Symbol(10 + i)
  {
  }

  lemma {:induction false} LowerSymbols()
    ensures forall i | 0 <= i < 26 :: "abcdefghijklmnopqrstuvwxyz"[i] == Symbol(36 + i)
  {
  }

  lemma {:induction false} MarkSymbols()
    ensures forall i | 0 <= i < 21 :: "#$%*+,-.:;=?@[]^_{|}~"[i] == Symbol(62 + i)
  {
  }

  /** The alphabet has 83 symbols, and position d holds `Symbol(d)`. */
  lemma {:induction false} AlphabetSymbols()
    ensures |Alphabet| == 83 && forall d | 0 <= d < 83 :: Alphabet[d] == Symbol(d)
  {
    DigitSymbols();
    UpperSymbols();
    LowerSymbols();
    MarkSymbols();
    forall d | 0 <= d < 83
      ensures Alphabet[d] == Symbol(d)
    {
      if d < 10 {
      } else if d < 36 {
        assert Alphabet[d] == "ABCDEFGHIJKLMNOPQRSTUVWXYZ"[d - 10];
      } else if d < 62 {
        assert Alphabet[d] == "abcdefghijklmnopqrstuvwxyz"[d - 36];
      } else {
        assert Alphabet[d] == "#$%*+,-.:;=?@[]^_{|}~"[d - 62];
      }
    }
  }

  /** Looking up the symbol at position d gives back d. */
  lemma {:induction false} ValueOfSymbol(d: nat)
    requires d < 83
    ensures Value(Symbol(d)) == Some(d)
  {
  }

  /** A character with a value is the symbol at that position. */
  lemma {:induction false} SymbolOfValue(c: char)
    requires Value(c).Some?
    ensures Symbol(Value(c).value) == c
  {
  }

  /** The lookup table is the alphabet's index: a character has a value exactly when it is in the alphabet, and the value is its position. */
  lemma {:induction false} ValueIsIndex(c: char)
    ensures Value(c).Some? <==> c in Alphabet
    ensures Value(c).Some? ==> Alphabet[Value(c).value] == c
  {
    AlphabetSymbols();
    if Value(c).Some? {
      SymbolOfValue(c);
    } else if c in Alphabet {
      var d :| 0 <= d < |Alphabet| && Alphabet[d] == c;
      ValueOfSymbol(d);
    }
  }

  /** True when every character of s is an alphabet symbol. */
  predicate IsNumeral(s: string)
  {
    forall i | 0 <= i < |s| :: Value(s[i]).Some?
  }

  function Pow83(n: nat): (r: nat)
    ensures r > 0
  {
    if n == 0 then 1 else 83 * Pow83(n - 1)
  }

  /**
   * The value of a big-endian base-83 numeral (Horner's rule over the
   * characters, left to right); the first character outside the alphabet is
   * the error.
   */
  function Decoded(s: string): (r: Result<nat>)
    ensures r.Ok? ==> r.value < Pow83(|s|)
    decreases |s|
  {
    if s == [] then Ok(0)
    else
      var high :- Decoded(s[..|s| - 1]);
      var last := s[|s| - 1];
      match Value(last)
      case None => Err(UnknownSymbol(last))
      case Some(d) =>
        assert high * 83 + d < Pow83(|s|) by {
          assert high <= Pow83(|s| - 1) - 1;
          assert high * 83 <= (Pow83(|s| - 1) - 1) * 83;
        }
        Ok(high * 83 + d)
  }

  /** A string decodes exactly when every character of it is an alphabet symbol. */
  lemma {:induction false} DecodedAccepts(s: string)
    ensures Decoded(s).Ok? <==> IsNumeral(s)
    decreases |s|
  {
    if s != [] {
      var prefix := s[..|s| - 1];
      assert forall i | 0 <= i < |prefix| :: prefix[i] == s[i];
      DecodedAccepts(prefix);
    }
  }

  /** A concatenation is a numeral exactly when both of its parts are. */
  lemma {:induction false} NumeralConcat(a: string, b: string)
    ensures IsNumeral(a + b) <==> IsNumeral(a) && IsNumeral(b)
  {
    if IsNumeral(a + b) {
      forall i | 0 <= i < |a|
        ensures Value(a[i]).Some?
      {
        assert a[i] == (a + b)[i];
      }
      forall i | 0 <= i < |b|
        ensures Value(b[i]).Some?
      {
        assert b[i] == (a + b)[|a| + i];
      }
    }
    if IsNumeral(a) && IsNumeral(b) {
      forall i | 0 <= i < |a + b|
        ensures Value((a + b)[i]).Some?
      {
        if i < |a| {
          assert (a + b)[i] == a[i];
        } else {
          assert (a + b)[i] == b[i - |a|];
        }
      }
    }
  }

  /** A single symbol decodes to its own value. */
  lemma {:induction false} DecodedSymbol(s: string)
    requires |s| == 1
    ensures Decoded(s).Ok? <==> Value(s[0]).Some?
    ensures Decoded(s).Ok? ==> Decoded(s).value == Value(s[0]).value
  {
    assert s[..0] == [];
  }

  /** The n-digit numeral of v, most significant digit first (the low n digits of v). */
  function Numeral(v: nat, n: nat): (r: string)
    ensures |r| == n
  {
    if n == 0 then "" else Numeral(v / 83, n - 1) + [Symbol(v % 83)]
  }

  /**
   * Encoding `value` into exactly `length` symbols: an error unless the value
   * fits, and otherwise the numeral that decodes back to `value`.
   */
  function Encoded(value: int, length: nat): (r: Result<string>)
    ensures r.Ok? <==> 0 <= value < Pow83(length)
    ensures r.Err? ==> r.error == ValueTooLong
    ensures r.Ok? ==> |r.value| == length
  {
    if value < 0 || value >= Pow83(length) then Err(ValueTooLong)
    else Ok(Numeral(value, length))
  }

  /** What fits in `length` symbols encodes, and decoding the symbols gives the value back. */
  lemma {:induction false} EncodedRoundTrip(value: int, length: nat)
    requires 0 <= value < Pow83(length)
    ensures Encoded(value, length).Ok? && Decoded(Encoded(value, length).value) == Ok(value)
  {
    NumeralRoundTrip(value, length);
  }

  /** The codec's own overflow test, value // 83^length != 0, is exactly the failure of `Encoded`. */
  lemma {:induction false} EncodedOverflow(value: int, length: nat)
    ensures Encoded(value, length).Err? <==> value / Pow83(length) != 0
  {
    DivMod.QuotientZero(value, Pow83(length));
  }

  /** Decoding an n-digit numeral of a value below 83^n gives the value back. */
  lemma {:induction false} NumeralRoundTrip(v: nat, n: nat)
    requires v < Pow83(n)
    ensures Decoded(Numeral(v, n)) == Ok(v)
  {
    if n > 0 {
      var s := Numeral(v, n);
      DivMod.DivBelow(v, Pow83(n - 1), 83);
      NumeralRoundTrip(v / 83, n - 1);
      ValueOfSymbol(v % 83);
      assert s[..|s| - 1] == Numeral(v / 83, n - 1);
    }
  }

  /** Every numeral is its own value's numeral: decoding is injective on each length. */
  lemma {:induction false} DecodedRoundTrip(s: string)
    requires Decoded(s).Ok?
    ensures Numeral(Decoded(s).value, |s|) == s
    decreases |s|
  {
    if s != [] {
      var prefix, last := s[..|s| - 1], s[|s| - 1];
      DecodedRoundTrip(prefix);
      var high, d := Decoded(prefix).value, Value(last).value;
      assert Decoded(s).value == high * 83 + d;
      DivMod.Unique(high * 83 + d, 83, high, d);
      SymbolOfValue(last);
      assert s == prefix + [last];
    }
  }

  /** Encoding a numeral's value at the numeral's own length gives the numeral back. */
  lemma {:induction false} EncodedInverse(s: string)
    requires Decoded(s).Ok?
    ensures Encoded(Decoded(s).value, |s|) == Ok(s)
  {
    DecodedRoundTrip(s);
  }

  /** Two numerals of the same length with the same value are the same numeral. */
  lemma {:induction false} DecodedInjective(s: string, t: string)
    requires |s| == |t| && Decoded(s).Ok? && Decoded(s) == Decoded(t)
    ensures s == t
  {
    DecodedRoundTrip(s);
    DecodedRoundTrip(t);
  }

  /** A numeral is decoded left to right: the first non-symbol is the one reported. */
  lemma {:induction false} DecodedFirstError(s: string, k: nat)
    requires k < |s| && Value(s[k]).None?
    requires forall j | 0 <= j < k :: Value(s[j]).Some?
    ensures Decoded(s) == Err(UnknownSymbol(s[k]))
    decreases |s|
  {
    var prefix := s[..|s| - 1];
    if k < |s| - 1 {
      assert prefix[k] == s[k];
      assert forall j | 0 <= j < k :: prefix[j] == s[j];
      DecodedFirstError(prefix, k);
    } else {
      assert IsNumeral(prefix) by {
        assert forall j | 0 <= j < |prefix| :: prefix[j] == s[j];
      }
      DecodedAccepts(prefix);
    }
  }

  /** Appending a symbol multiplies the value by 83 and adds the symbol's value. */
  lemma {:induction false} DecodedSnoc(s: string, c: char)
    requires Decoded(s).Ok? && Value(c).Some?
    ensures Decoded(s + [c]) == Ok(Decoded(s).value * 83 + Value(c).value)
  {
    assert (s + [c])[..|s|] == s;
  }

  /** The decoding loop of the codec, proved against `Decoded`. */
  method Decode(s: string) returns (r: Result<nat>)
    ensures r == Decoded(s)
  {
    var value := 0;
    for i := 0 to |s|
      invariant Decoded(s[..i]) == Ok(value)
    {
      assert s[..i + 1][..i] == s[..i];
      match Value(s[i])
      case None =>
        DecodedAccepts(s[..i]);
        assert forall j | 0 <= j < i :: s[..i][j] == s[j];
        DecodedFirstError(s, i);
        return Err(UnknownSymbol(s[i]));
      case Some(d) =>
        value := value * 83 + d;
    }
    assert s[..|s|] == s;
    return Ok(value);
  }

  /** The encoding loop of the codec, proved against `Encoded`. */
  method Encode(value: int, length: nat) returns (r: Result<string>)
    ensures r == Encoded(value, length)
  {
    DivMod.QuotientZero(value, Pow83(length));
    if value / Pow83(length) != 0 {
      return Err(ValueTooLong);
    }
    AlphabetSymbols();
    var result := "";
    for i := 1 to length + 1
      invariant result == Numeral(value / Pow83(length - i + 1), i - 1)
    {
      var digit := value / Pow83(length - i) % 83;
      DivMod.DivDiv(value, Pow83(length - i), 83);
      assert Pow83(length - i + 1) == Pow83(length - i) * 83;
      result := result + [Alphabet[digit]];
    }
    return Ok(result);
  }
}
