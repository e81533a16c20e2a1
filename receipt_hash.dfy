/**
 * The input fingerprint the app attaches to a receipt request. Despite its name
 * it is not the SHA-256 digest of FIPS 180-4: it is the polynomial string hash
 * h := 31·h + c over the UTF-16 code units, kept as a signed 32-bit integer,
 * printed as the lowercase hexadecimal of its absolute value.
 */
module ReceiptHash {

  /** One UTF-16 code unit (`charCodeAt`). */
  type CodeUnit = x: int | 0 <= x < 0x1_0000

  const TwoTo32: int := 0x1_0000_0000
  const TwoTo31: int := 0x8000_0000

  /** ECMAScript ToInt32: the signed 32-bit integer congruent to `x` modulo 2^32. */
  function ToInt32(x: int): (r: int)
    ensures -TwoTo31 <= r < TwoTo31
    ensures (x - r) % TwoTo32 == 0
  {
    var m := x % TwoTo32;
    if m >= TwoTo31 then m - TwoTo32 else m
  }

  /** ToInt32 only depends on its argument modulo 2^32. */
  lemma ToInt32Congruent(x: int, y: int, k: int)
    requires x == y + k * TwoTo32
    ensures ToInt32(x) == ToInt32(y)
  {
    assert x % TwoTo32 == y % TwoTo32 by { ModShift(y, k); }
  }

  lemma ModShift(y: int, k: int)
    ensures (y + k * TwoTo32) % TwoTo32 == y % TwoTo32
  {
    var q, r := y / TwoTo32, y % TwoTo32;
    assert y == q * TwoTo32 + r;
    assert y + k * TwoTo32 == (q + k) * TwoTo32 + r;
  }

  /** One step of the loop as written: `hash = ((hash << 5) - hash) + char; hash = hash & hash`.
      The shift already wraps to 32 bits; the subtraction and the addition are exact in a
      double and `& hash` wraps the sum. */
  function LoopStep(h: int, c: CodeUnit): int {
    ToInt32(ToInt32(h * 32) - h + c)
  }

  /** The hash of the first `|units|` code units, one step per unit. */
  function HashOf(units: seq<CodeUnit>): (h: int)
    ensures -TwoTo31 <= h < TwoTo31
    decreases |units|
  {
    if units == [] then 0 else LoopStep(HashOf(units[..|units| - 1]), units[|units| - 1])
  }

  function Pow31(k: nat): (r: nat)
    ensures r >= 1
  {
    if k == 0 then 1 else 31 * Pow31(k - 1)
  }

  /** The textbook closed form: the sum of `c_i · 31^(n-1-i)`. */
  function Polynomial(units: seq<CodeUnit>): int
    decreases |units|
  {
    if units == [] then 0 else units[0] * Pow31(|units| - 1) + Polynomial(units[1..])
  }

  lemma {:induction false} PolynomialSnoc(units: seq<CodeUnit>, c: CodeUnit)
    ensures Polynomial(units + [c]) == 31 * Polynomial(units) + c
    decreases |units|
  {
    var s := units + [c];
    if units != [] {
      assert s[1..] == units[1..] + [c];
      PolynomialSnoc(units[1..], c);
      var p := Pow31(|units| - 1);
      assert Pow31(|s| - 1) == 31 * p;
      assert units[0] * (31 * p) == 31 * (units[0] * p);
    } else {
      assert s[1..] == [];
    }
  }

  /** The loop computes the closed form reduced to a signed 32-bit integer. */
  lemma {:induction false} HashIsPolynomial(units: seq<CodeUnit>)
    ensures HashOf(units) == ToInt32(Polynomial(units))
    decreases |units|
  {
    if units != [] {
      var init, c := units[..|units| - 1], units[|units| - 1];
      assert units == init + [c];
      HashIsPolynomial(init);
      PolynomialSnoc(init, c);
      StepWraps(HashOf(init), c);
      WrapTimes31(Polynomial(init), c);
    }
  }

  /** Wrapping the shift early does not change the wrapped result: the step is 31·h + c. */
  lemma StepWraps(h: int, c: CodeUnit)
    ensures LoopStep(h, c) == ToInt32(31 * h + c)
  {
    var s := ToInt32(h * 32);
    var k := (h * 32 - s) / TwoTo32;
    assert h * 32 - s == k * TwoTo32;
    ToInt32Congruent(31 * h + c, s - h + c, k);
  }

  /** Wrapping before multiplying by 31 does not change the wrapped result. */
  lemma WrapTimes31(p: int, c: CodeUnit)
    ensures ToInt32(31 * ToInt32(p) + c) == ToInt32(31 * p + c)
  {
    var h := ToInt32(p);
    var k := (p - h) / TwoTo32;
    assert p - h == k * TwoTo32;
    assert 31 * p + c == 31 * h + c + (31 * k) * TwoTo32;
    ToInt32Congruent(31 * p + c, 31 * h + c, 31 * k);
  }

  // ---------------------------------------------------------------------
  // Hexadecimal rendering

  function HexDigit(d: nat): (c: char)
    requires d < 16
  {
    "0123456789abcdef"[d]
  }

  predicate IsHexDigit(c: char) {
    '0' <= c <= '9' || 'a' <= c <= 'f'
  }

  function HexValue(c: char): nat
    requires IsHexDigit(c)
  {
    if '0' <= c <= '9' then c as nat - '0' as nat else c as nat - 'a' as nat + 10
  }

  /** `n.toString(16)`: lowercase digits, most significant first, no leading zero. */
  function Hex(n: nat): (r: string)
    ensures 1 <= |r|
    ensures forall i | 0 <= i < |r| :: IsHexDigit(r[i])
    ensures |r| > 1 ==> r[0] != '0'
    decreases n
  {
    if n < 16 then [HexDigit(n)] else Hex(n / 16) + [HexDigit(n % 16)]
  }

  /** Reads lowercase hexadecimal digits. */
  function ParseHex(s: string): nat
    requires forall i | 0 <= i < |s| :: IsHexDigit(s[i])
    decreases |s|
  {
    if s == [] then 0 else 16 * ParseHex(s[..|s| - 1]) + HexValue(s[|s| - 1])
  }

  /** Reading the digits back gives the number. */
  lemma {:induction false} ParseHexOfHex(n: nat)
    ensures ParseHex(Hex(n)) == n
    decreases n
  {
    var r := Hex(n);
    HexValueOfDigit(n % 16);
    if n >= 16 {
      ParseHexOfHex(n / 16);
      assert r == Hex(n / 16) + [HexDigit(n % 16)];
      assert r[..|r| - 1] == Hex(n / 16) && r[|r| - 1] == HexDigit(n % 16);
      assert ParseHex(r) == 16 * (n / 16) + n % 16;
    } else {
      assert r == [HexDigit(n)] && r[..0] == [];
    }
  }

  lemma HexValueOfDigit(d: nat)
    requires d < 16
    ensures IsHexDigit(HexDigit(d)) && HexValue(HexDigit(d)) == d
  {
  }

  function Pow16(k: nat): (r: nat)
    ensures r >= 1
  {
    if k == 0 then 1 else 16 * Pow16(k - 1)
  }

  /** A number below 16^k needs at most k digits. */
  lemma {:induction false} HexLength(n: nat, k: nat)
    requires 1 <= k && n < Pow16(k)
    ensures |Hex(n)| <= k
    decreases n
  {
    if n >= 16 {
      assert k != 1;
      var p := Pow16(k - 1);
      assert Pow16(k) == 16 * p;
      assert n / 16 < p;
      HexLength(n / 16, k - 1);
      assert Hex(n) == Hex(n / 16) + [HexDigit(n % 16)];
    }
  }

  // ---------------------------------------------------------------------
  // The function

  function Abs(x: int): nat {
    if x < 0 then -x else x
  }

  /** `generateSHA256Hash`: "0" for the empty input, otherwise the hex of |hash|. */
  function HashHex(units: seq<CodeUnit>): string {
    if |units| == 0 then "0" else Hex(Abs(HashOf(units)))
  }

  method GenerateSHA256Hash(input: seq<CodeUnit>) returns (r: string)
    ensures r == HashHex(input)
  {
    var hash := 0;
    if |input| == 0 {
      return "0";
    }
    for i := 0 to |input|
      invariant hash == HashOf(input[..i])
    {
      assert input[..i + 1][..i] == input[..i];
      hash := ToInt32(ToInt32(hash * 32) - hash + input[i]);
    }
    assert input[..|input|] == input;
    r := Hex(Abs(hash));
  }

  /** The output is 1 to 8 lowercase hex digits without a leading zero, so it is never a
      64-character SHA-256 digest; it reads back as |h|, and h = -2^31 prints as "80000000". */
  lemma HashHexShape(units: seq<CodeUnit>)
    ensures var r := HashHex(units);
      1 <= |r| <= 8 && |r| != 64
      && (forall i | 0 <= i < |r| :: IsHexDigit(r[i]))
      && (|r| > 1 ==> r[0] != '0')
      && ParseHex(r) == Abs(HashOf(units))
      && (HashOf(units) == -TwoTo31 ==> r == "80000000")
  {
    if units != [] {
      var n := Abs(HashOf(units));
      assert Pow16(8) == TwoTo32;
      HexLength(n, 8);
      ParseHexOfHex(n);
      if HashOf(units) == -TwoTo31 {
        HexOfTwoTo31();
      }
    }
  }

  lemma HexOfTwoTo31()
    ensures Hex(TwoTo31) == "80000000"
  {
    assert Hex(8) == "8";
    assert Hex(0x80) == "80";
    assert Hex(0x800) == "800";
    assert Hex(0x8000) == "8000";
    assert Hex(0x80000) == "80000";
    assert Hex(0x800000) == "800000";
    assert Hex(0x8000000) == "8000000";
  }
}
