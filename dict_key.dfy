/**
 * The dictionary key of a sparse-matrix cell: the decimal texts of x, y and z
 * joined by '_' (as `Int32.ToString` writes them), together with a decoder that
 * proves the encoding collision-free.
 */
module DictKeys {

  /** The character between the three coordinates of a key. */
  const Separator: char := '_'

  /** The character of decimal digit `d`. */
  function DigitChar(d: nat): (c: char)
    requires d < 10
    ensures '0' <= c <= '9' && c as int - '0' as int == d
  {
    (48 + d) as char
  }

  /** The value of a decimal digit character. */
  function DigitValue(c: char): int
  {
    c as int - '0' as int
  }

  /** Decimal text of `n` without leading zeros, most significant digit first. */
  function NatToString(n: nat): (s: string)
    ensures |s| > 0
    ensures forall k :: 0 <= k < |s| ==> '0' <= s[k] <= '9'
    decreases n
  {
    if n < 10 then [DigitChar(n)] else NatToString(n / 10) + [DigitChar(n % 10)]
  }

  /** Decimal text of any 32-bit value as `Int32.ToString` gives it: a '-' before the magnitude of a negative number. */
  function IntToString(n: int): (s: string)
    ensures |s| > 0 && Separator !in s
    ensures (s[0] == '-') <==> n < 0
  {
    if n < 0 then "-" + NatToString(-n) else NatToString(n)
  }

  /** Reads a string of decimal digits back into its value. */
  function ParseDigits(s: string): int
  {
    if s == [] then 0 else ParseDigits(s[..|s| - 1]) * 10 + DigitValue(s[|s| - 1])
  }

  /** Reads an optionally negative decimal text back into its value. */
  function ParseInt(s: string): int
  {
    if |s| > 0 && s[0] == '-' then -ParseDigits(s[1..]) else ParseDigits(s)
  }

  lemma {:induction false} ParseNatToString(n: nat)
    ensures ParseDigits(NatToString(n)) == n
    decreases n
  {
    if n >= 10 {
      var s := NatToString(n / 10);
      assert (s + [DigitChar(n % 10)])[..|s|] == s;
      ParseNatToString(n / 10);
    }
  }

  /** Decimal text and parsing are inverse: the text of an integer determines it. */
  lemma ParseIntToString(n: int)
    ensures ParseInt(IntToString(n)) == n
  {
    if n < 0 {
      assert ("-" + NatToString(-n))[1..] == NatToString(-n);
      ParseNatToString(-n);
    } else {
      ParseNatToString(n);
    }
  }

  /** The text before the first separator of `s`, and the text after it. */
  function SplitAtSeparator(s: string): (string, string)
  {
    if s == [] then ([], [])
    else if s[0] == Separator then ([], s[1..])
    else
      var (head, tail) := SplitAtSeparator(s[1..]);
      ([s[0]] + head, tail)
  }

  lemma {:induction false} SplitJoined(a: string, b: string)
    requires Separator !in a
    ensures SplitAtSeparator(a + [Separator] + b) == (a, b)
  {
    if a != [] {
      assert (a + [Separator] + b)[1..] == a[1..] + [Separator] + b;
      SplitJoined(a[1..], b);
      assert [a[0]] + a[1..] == a;
    }
  }

  /** The key under which cell (x, y, z) is stored: "x_y_z". */
  function DictKey(x: int, y: int, z: int): string
  {
    IntToString(x) + [Separator] + IntToString(y) + [Separator] + IntToString(z)
  }

  /** Decodes a key back into the coordinates it was built from. */
  function ParseKey(key: string): (int, int, int)
  {
    var (xs, rest) := SplitAtSeparator(key);
    var (ys, zs) := SplitAtSeparator(rest);
    (ParseInt(xs), ParseInt(ys), ParseInt(zs))
  }

  /** Decoding a key gives back the coordinates it encodes. */
  lemma ParseDictKey(x: int, y: int, z: int)
    ensures ParseKey(DictKey(x, y, z)) == (x, y, z)
  {
    var xs, ys, zs := IntToString(x), IntToString(y), IntToString(z);
    assert DictKey(x, y, z) == xs + [Separator] + (ys + [Separator] + zs);
    SplitJoined(xs, ys + [Separator] + zs);
    SplitJoined(ys, zs);
    ParseIntToString(x);
    ParseIntToString(y);
    ParseIntToString(z);
  }

  /** Two cells share a key exactly when they are the same cell. */
  lemma DictKeyInjective(x1: int, y1: int, z1: int, x2: int, y2: int, z2: int)
    ensures DictKey(x1, y1, z1) == DictKey(x2, y2, z2) <==> (x1, y1, z1) == (x2, y2, z2)
  {
    ParseDictKey(x1, y1, z1);
    ParseDictKey(x2, y2, z2);
  }
}
