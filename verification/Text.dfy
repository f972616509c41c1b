/** Textual forms the program uses as keys and stored values: hex strings and decimal numbers. */
module Text {

  datatype Option<+T> = None | Some(value: T)

  type byte = x: int | 0 <= x < 256

  // ----- hex

  function HexDigit(n: int): (c: char)
    requires 0 <= n < 16
    ensures c != '|'
  {
    "0123456789ABCDEF"[n]
  }

  /** CometBFT's HexBytes.String: two upper-case digits a byte. */
  function Hex(b: seq<byte>): (s: string)
    ensures |s| == 2 * |b| && '|' !in s
  {
    if b == [] then [] else [HexDigit(b[0] / 16), HexDigit(b[0] % 16)] + Hex(b[1..])
  }

  function HexValue(c: char): Option<int> {
    if '0' <= c <= '9' then Some(c as int - '0' as int)
    else if 'a' <= c <= 'f' then Some(c as int - 'a' as int + 10)
    else if 'A' <= c <= 'F' then Some(c as int - 'A' as int + 10)
    else None
  }

  /** Go's hex.DecodeString: either case, an even number of digits, nothing else. */
  function DecodeHex(s: string): Option<seq<byte>>
    decreases |s|
  {
    if s == [] then Some([])
    else if |s| == 1 then None
    else
      var hi, lo, rest := HexValue(s[0]), HexValue(s[1]), DecodeHex(s[2..]);
      if hi.None? || lo.None? || rest.None? then None
      else
        assert 0 <= hi.value < 16 && 0 <= lo.value < 16;
        Some([16 * hi.value + lo.value] + rest.value)
  }

  lemma DigitRoundTrip(n: int)
    requires 0 <= n < 16
    ensures HexValue(HexDigit(n)) == Some(n)
  {}

  lemma {:induction false} HexRoundTrip(b: seq<byte>)
    ensures DecodeHex(Hex(b)) == Some(b)
  {
    if b != [] {
      DigitRoundTrip(b[0] / 16);
      DigitRoundTrip(b[0] % 16);
      HexRoundTrip(b[1..]);
      assert Hex(b)[2..] == Hex(b[1..]);
      assert DecodeHex(Hex(b)) == Some([16 * (b[0] / 16) + b[0] % 16] + b[1..]);
      assert [b[0]] + b[1..] == b;
    }
  }

  lemma HexInjective(a: seq<byte>, b: seq<byte>)
    ensures Hex(a) == Hex(b) <==> a == b
  {
    HexRoundTrip(a);
    HexRoundTrip(b);
  }

  // ----- decimal numbers

  function Digits(n: nat): (s: string)
    ensures s != [] && forall c :: c in s ==> '0' <= c <= '9'
  {
    if n < 10 then [('0' as int + n) as char] else Digits(n / 10) + [('0' as int + n % 10) as char]
  }

  function Decimal(n: int): (s: string)
    ensures '|' !in s
  {
    if n < 0 then "-" + Digits(-n) else Digits(n)
  }

  function DigitsValue(s: string): int {
    if s == [] then 0 else 10 * DigitsValue(s[..|s| - 1]) + (s[|s| - 1] as int - '0' as int)
  }

  function DecimalValue(s: string): int {
    if s != [] && s[0] == '-' then -DigitsValue(s[1..]) else DigitsValue(s)
  }

  lemma {:induction false} DigitsRoundTrip(n: nat)
    ensures DigitsValue(Digits(n)) == n
  {
    var s := Digits(n);
    if n >= 10 {
      DigitsRoundTrip(n / 10);
      assert s[..|s| - 1] == Digits(n / 10);
    } else {
      assert s[..0] == [];
    }
  }

  lemma DecimalRoundTrip(n: int)
    ensures DecimalValue(Decimal(n)) == n
  {
    if n < 0 {
      DigitsRoundTrip(-n);
      assert Decimal(n)[1..] == Digits(-n);
    } else {
      DigitsRoundTrip(n);
      assert Digits(n)[0] in Digits(n);
    }
  }

  lemma MinusIff(n: int)
    ensures Decimal(n)[0] == '-' <==> n < 0
  {
    assert n >= 0 ==> Digits(n)[0] in Digits(n);
  }

  // ----- fields joined by a separator

  function FirstIndex(s: string, c: char): nat {
    if s == [] || s[0] == c then 0 else 1 + FirstIndex(s[1..], c)
  }

  lemma {:induction false} BeforeFirstIndex(s: string, c: char)
    ensures FirstIndex(s, c) <= |s| && c !in s[..FirstIndex(s, c)]
  {
    if s != [] && s[0] != c {
      BeforeFirstIndex(s[1..], c);
    }
  }

  lemma {:induction false} FirstSeparator(a: string, x: string, c: char)
    requires c !in a
    ensures FirstIndex(a + [c] + x, c) == |a|
  {
    if a == [] {
      assert (a + [c] + x)[0] == c;
    } else {
      assert (a + [c] + x)[1..] == a[1..] + [c] + x;
      FirstSeparator(a[1..], x, c);
    }
  }

  lemma SplitAt(a: string, x: string, b: string, y: string, c: char)
    requires a + [c] + x == b + [c] + y && c !in a && c !in b
    ensures a == b && x == y
  {
    FirstSeparator(a, x, c);
    FirstSeparator(b, y, c);
    var s, t := a + [c] + x, b + [c] + y;
    assert a == s[..|a|] && b == t[..|b|];
    assert x == s[|a| + 1..] && y == t[|b| + 1..];
  }
}
