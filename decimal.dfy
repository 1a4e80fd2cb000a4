/** Unsigned decimal text, as strconv.ParseUint(s, 10, bitSize) accepts it:
    one or more ASCII digits (no sign, no underscores, leading zeros allowed)
    whose value fits in bitSize bits. */
module Decimal {
  import opened Results

  predicate IsDigit(c: char) {
    '0' <= c <= '9'
  }

  function DigitValue(c: char): (d: nat)
    requires IsDigit(c)
    ensures d < 10
  {
    (c as int - '0' as int) as nat
  }

  function DigitChar(d: nat): (c: char)
    requires d < 10
    ensures IsDigit(c) && DigitValue(c) == d
  {
    ('0' as int + d) as char
  }

  predicate AllDigits(s: string) {
    forall i :: 0 <= i < |s| ==> IsDigit(s[i])
  }

  /** The value of a digit string read most significant digit first. */
  function Value(s: string): nat
    requires AllDigits(s)
  {
    if s == [] then 0 else 10 * Value(s[..|s| - 1]) + DigitValue(s[|s| - 1])
  }

  function Pow2(n: nat): (r: nat)
    ensures r > 0
  {
    if n == 0 then 1 else 2 * Pow2(n - 1)
  }

  lemma {:induction false} Pow2Add(a: nat, b: nat)
    ensures Pow2(a + b) == Pow2(a) * Pow2(b)
    decreases a
  {
    if a > 0 {
      Pow2Add(a - 1, b);
    }
  }

  /** The bounds of Go's 16-bit and 64-bit unsigned integers. */
  lemma Pow2Bounds()
    ensures Pow2(16) == 0x1_0000
    ensures Pow2(64) == 0x1_0000_0000_0000_0000
  {
    assert Pow2(2) == 4;
    Pow2Add(2, 2);
    Pow2Add(4, 4);
    Pow2Add(8, 8);
    Pow2Add(16, 16);
    Pow2Add(32, 32);
  }

  /** strconv.ParseUint(s, 10, bitSize); None stands for a non-nil error
      (syntax or range: the callers treat both alike). */
  function ParseUint(s: string, bitSize: nat): (r: Option<nat>)
    ensures r.Some? ==> r.value < Pow2(bitSize)
    ensures r.Some? <==> s != [] && AllDigits(s) && Value(s) < Pow2(bitSize)
    ensures r.Some? ==> r.value == Value(s)
  {
    if s != [] && AllDigits(s) && Value(s) < Pow2(bitSize) then Some(Value(s)) else None
  }

  /** strconv.FormatUint(n, 10): the shortest decimal spelling of n. */
  function FormatUint(n: nat): (s: string)
    ensures s != [] && AllDigits(s)
    ensures |s| > 1 ==> s[0] != '0'
  {
    if n < 10 then [DigitChar(n)] else FormatUint(n / 10) + [DigitChar(n % 10)]
  }

  lemma {:induction false} ValueOfFormat(n: nat)
    ensures Value(FormatUint(n)) == n
  {
    if n >= 10 {
      var s := FormatUint(n);
      assert s[..|s| - 1] == FormatUint(n / 10);
      ValueOfFormat(n / 10);
    }
  }

  /** Every value that fits in bitSize bits is accepted back from its own spelling. */
  lemma ParseFormat(n: nat, bitSize: nat)
    requires n < Pow2(bitSize)
    ensures ParseUint(FormatUint(n), bitSize) == Some(n)
  {
    ValueOfFormat(n);
  }

  /** The decimal spelling of a value too large for bitSize bits is refused. */
  lemma {:induction false} ParseRefusesOutOfRange(n: nat, bitSize: nat)
    requires n >= Pow2(bitSize)
    ensures ParseUint(FormatUint(n), bitSize) == None
  {
    ValueOfFormat(n);
  }
}
