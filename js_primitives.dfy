/** The few JavaScript string and number operations the decoder relies on:
    `String.prototype.slice` with its clamping, `parseInt(_, 16)` on hex digits,
    fixed-width hex printing (what an encoder of the packed formats writes),
    number-to-decimal conversion and ASCII lower-casing. */
module JsPrimitives {

  function Min(a: nat, b: nat): nat { if a <= b then a else b }

  /** `s.slice(start, end)` for non-negative arguments: both ends are clamped
      to the length of `s`, and an empty or inverted range gives "". */
  function Slice(s: string, start: nat, end: nat): (r: string)
    ensures |r| == if start < end && start < |s| then Min(end, |s|) - start else 0
  {
    if start < end && start < |s| then s[start..Min(end, |s|)] else []
  }

  /** Slicing a whole string gives it back. */
  lemma SliceWhole(s: string)
    ensures Slice(s, 0, |s|) == s
  {
  }

  /** A slice that ends inside the left operand of a concatenation only sees that operand. */
  lemma SliceLeft(a: string, b: string, start: nat, end: nat)
    requires end <= |a|
    ensures Slice(a + b, start, end) == Slice(a, start, end)
  {
    if start < end {
      assert (a + b)[start..end] == a[start..end];
    }
  }

  /** A slice that starts in the right operand of a concatenation is a slice
      of that operand, shifted; clamping at the end works the same way. */
  lemma SliceRight(a: string, b: string, start: nat, end: nat)
    requires |a| <= start <= end
    ensures Slice(a + b, start, end) == Slice(b, start - |a|, end - |a|)
  {
    if start < end && start < |a + b| {
      assert (a + b)[start..Min(end, |a + b|)] == b[start - |a|..Min(end - |a|, |b|)];
    }
  }

  predicate IsHexDigit(c: char) {
    ('0' <= c <= '9') || ('a' <= c <= 'f') || ('A' <= c <= 'F')
  }

  predicate IsHex(s: string) {
    forall k {:trigger IsHexDigit(s[k])} :: 0 <= k < |s| ==> IsHexDigit(s[k])
  }

  /** Every character from position `from` on is a hex digit (the part of a
      calldata string after its "0x"). */
  predicate HexDigitsFrom(s: string, from: nat) {
    forall k {:trigger IsHexDigit(s[k])} :: from <= k < |s| ==> IsHexDigit(s[k])
  }

  /** The value of a hex digit. The strings read here are hex throughout
      (their callers require it); any other character counts as 0, so that
      reading needs no precondition. */
  function DigitValue(c: char): (d: nat)
    ensures d < 16
  {
    if '0' <= c <= '9' then c as nat - '0' as nat
    else if 'a' <= c <= 'f' then c as nat - 'a' as nat + 10
    else if 'A' <= c <= 'F' then c as nat - 'A' as nat + 10
    else 0
  }

  function DigitChar(d: nat): (c: char)
    requires d < 16
    ensures IsHexDigit(c) && DigitValue(c) == d
  {
    if d < 10 then ('0' as int + d) as char else ('a' as int + d - 10) as char
  }

  function Pow16(w: nat): (r: nat)
    ensures r >= 1
  {
    if w == 0 then 1 else 16 * Pow16(w - 1)
  }

  lemma {:induction false} Pow16Monotone(a: nat, b: nat)
    requires a <= b
    ensures Pow16(a) <= Pow16(b)
    decreases b
  {
    if a < b {
      Pow16Monotone(a, b - 1);
    }
  }

  lemma {:induction false} Pow16Add(a: nat, b: nat)
    ensures Pow16(a + b) == Pow16(a) * Pow16(b)
    decreases b
  {
    if b > 0 {
      Pow16Add(a, b - 1);
      assert Pow16(a + b) == 16 * (Pow16(a) * Pow16(b - 1));
    }
  }

  /** The value of the `k` hex digits of `s` that start at `start`, read
      big-endian. */
  function HexAt(s: string, start: nat, k: nat): nat
    requires start + k <= |s|
  {
    if k == 0 then 0 else 16 * HexAt(s, start, k - 1) + DigitValue(s[start + k - 1])
  }

  /** `k` hex digits hold a value below `16^k`. */
  lemma {:induction false} HexAtBound(s: string, start: nat, k: nat)
    requires start + k <= |s|
    ensures HexAt(s, start, k) < Pow16(k)
  {
    if k > 0 {
      HexAtBound(s, start, k - 1);
    }
  }

  /** `parseInt(s, 16)` on a string of hex digits, read big-endian (the empty
      string, for which JavaScript gives NaN, is handled by the callers). The
      value fits in as many hex digits as `s` has. */
  function HexValue(s: string): (n: nat)
    ensures n < Pow16(|s|)
  {
    HexAtBound(s, 0, |s|);
    HexAt(s, 0, |s|)
  }

  /** `parseInt(s.slice(start, end), 16)`, read in place: the digits of the
      clamped range. */
  function ParseHex(s: string, start: nat, end: nat): nat {
    if start < end && start < |s| then HexAt(s, start, Min(end, |s|) - start) else 0
  }

  /** A range of `end - start` digits holds a value below `16^(end - start)`,
      clamped or not. */
  lemma ParseHexBound(s: string, start: nat, end: nat)
    requires start <= end
    ensures ParseHex(s, start, end) < Pow16(end - start)
  {
    if start < end && start < |s| {
      HexAtBound(s, start, Min(end, |s|) - start);
      Pow16Monotone(Min(end, |s|) - start, end - start);
    }
  }

  /** Equal runs of digits have equal values, wherever they lie. */
  lemma {:induction false} HexAtSame(s: string, a: nat, t: string, b: nat, k: nat)
    requires a + k <= |s| && b + k <= |t|
    requires s[a..a + k] == t[b..b + k]
    ensures HexAt(s, a, k) == HexAt(t, b, k)
  {
    if k > 0 {
      assert s[a..a + k - 1] == s[a..a + k][..k - 1];
      assert t[b..b + k - 1] == t[b..b + k][..k - 1];
      HexAtSame(s, a, t, b, k - 1);
      assert s[a + k - 1] == s[a..a + k][k - 1];
      assert t[b + k - 1] == t[b..b + k][k - 1];
    }
  }

  /** Reading a range in place is `parseInt` of its slice. */
  lemma ParseHexOfSlice(s: string, start: nat, end: nat)
    ensures ParseHex(s, start, end) == HexValue(Slice(s, start, end))
  {
    if start < end && start < |s| {
      var x := Slice(s, start, end);
      HexAtSame(s, start, x, 0, |x|);
    }
  }

  /** The value of a run of digits does not depend on what follows it. */
  lemma {:induction false} HexAtOfAppend(a: string, b: string, start: nat, k: nat)
    requires start + k <= |a|
    ensures HexAt(a + b, start, k) == HexAt(a, start, k)
  {
    if k > 0 {
      HexAtOfAppend(a, b, start, k - 1);
      assert (a + b)[start + k - 1] == a[start + k - 1];
    }
  }

  /** The `w`-digit lower-case hex rendering of `n`, zero-padded on the left. */
  function ToHex(n: nat, w: nat): (s: string)
    ensures |s| == w && IsHex(s)
  {
    if w == 0 then [] else ToHex(n / 16, w - 1) + [DigitChar(n % 16)]
  }

  /** A run of `n` zero digits (padding in the word-aligned format). */
  function Zeros(n: nat): (s: string)
    ensures |s| == n && IsHex(s)
  {
    seq(n, _ => '0')
  }

  lemma {:induction false} HexValueOfToHex(n: nat, w: nat)
    requires n < Pow16(w)
    ensures HexValue(ToHex(n, w)) == n
  {
    if w > 0 {
      var q, d := n / 16, n % 16;
      var prefix := ToHex(q, w - 1);
      var s := ToHex(n, w);
      assert s == prefix + [DigitChar(d)];
      assert q < Pow16(w - 1) by {
        assert n == 16 * q + d;
        assert Pow16(w) == 16 * Pow16(w - 1);
      }
      HexValueOfToHex(q, w - 1);
      HexAtOfAppend(prefix, [DigitChar(d)], 0, w - 1);
      assert HexAt(s, 0, w) == 16 * HexAt(s, 0, w - 1) + DigitValue(s[w - 1]);
    }
  }

  predicate IsDecimalDigit(c: char) { '0' <= c <= '9' }

  function DecimalDigitValue(c: char): (d: nat)
    requires IsDecimalDigit(c)
    ensures d < 10
  {
    c as nat - '0' as nat
  }

  function DecimalDigit(d: nat): (c: char)
    requires d < 10
    ensures IsDecimalDigit(c) && DecimalDigitValue(c) == d
  {
    ('0' as int + d) as char
  }

  /** `String(n)` for a natural number: its decimal digits, no leading zero. */
  function Decimal(n: nat): (s: string)
    ensures |s| >= 1 && forall k :: 0 <= k < |s| ==> IsDecimalDigit(s[k])
    ensures s[0] == '0' ==> n == 0
  {
    if n < 10 then [DecimalDigit(n)] else Decimal(n / 10) + [DecimalDigit(n % 10)]
  }

  /** Reads a string of decimal digits back as a number. */
  function DecimalValue(s: string): nat
    requires forall k :: 0 <= k < |s| ==> IsDecimalDigit(s[k])
  {
    if |s| == 0 then 0 else 10 * DecimalValue(s[..|s| - 1]) + DecimalDigitValue(s[|s| - 1])
  }

  /** `Decimal` loses nothing: reading its digits back gives the number. */
  lemma {:induction false} DecimalRoundTrip(n: nat)
    ensures DecimalValue(Decimal(n)) == n
  {
    var s := Decimal(n);
    if n >= 10 {
      assert s[..|s| - 1] == Decimal(n / 10);
      DecimalRoundTrip(n / 10);
    }
  }

  /** Two numbers with the same decimal rendering are equal. */
  lemma DecimalInjective(m: nat, n: nat)
    requires Decimal(m) == Decimal(n)
    ensures m == n
  {
    DecimalRoundTrip(m);
    DecimalRoundTrip(n);
  }

  function LowerChar(c: char): char {
    if 'A' <= c <= 'Z' then (c as int - 'A' as int + 'a' as int) as char else c
  }

  /** `toLocaleLowerCase` restricted to ASCII: upper-case letters become
      lower-case and every other character is kept. */
  function Lower(s: string): (r: string)
    ensures |r| == |s|
    ensures forall k :: 0 <= k < |r| ==> !('A' <= r[k] <= 'Z')
    ensures forall k :: 0 <= k < |r| && !('A' <= s[k] <= 'Z') ==> r[k] == s[k]
    ensures forall k :: 0 <= k < |r| && 'A' <= s[k] <= 'Z' ==> r[k] as int == s[k] as int - 'A' as int + 'a' as int
  {
    seq(|s|, k requires 0 <= k < |s| => LowerChar(s[k]))
  }
}
