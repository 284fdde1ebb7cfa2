/**
 * Byte-level vocabulary of the protocol: bytes, the unsigned integer widths of
 * the header fields (struct codes H, I and Q), little-endian integer coding and
 * the decimal text the heartbeat handler answers with.
 *
 * Bodies are decoded with GBK in the server; this model takes that codec as
 * the identity on bytes (ASCII traffic), so a body is its byte string and its
 * `len` is its byte count.
 */
module Wire {

  type Byte = b: int | 0 <= b < 256

  /** struct code `H`, `I` and `Q`: unsigned 16, 32 and 64-bit integers. */
  type U16 = n: nat | n < 0x1_0000
  type U32 = n: nat | n < 0x1_0000_0000
  type U64 = n: nat | n < 0x1_0000_0000_0000_0000

  function Pow256(k: nat): (r: nat)
    ensures r >= 1
  {
    if k == 0 then 1 else 256 * Pow256(k - 1)
  }

  /** The integer written little-endian in `s` (the first byte is the least significant). */
  function FromLE(s: seq<Byte>): (r: nat)
    ensures r < Pow256(|s|)
  {
    if s == [] then 0 else s[0] + 256 * FromLE(s[1..])
  }

  /** The `k` bytes that write `v` little-endian. */
  function ToLE(v: nat, k: nat): (r: seq<Byte>)
    requires v < Pow256(k)
    ensures |r| == k
  {
    if k == 0 then [] else [v % 256] + ToLE(v / 256, k - 1)
  }

  lemma {:induction false} FromLEOfToLE(v: nat, k: nat)
    requires v < Pow256(k)
    ensures FromLE(ToLE(v, k)) == v
  {
    if k > 0 {
      var t, high := ToLE(v, k), v / 256;
      FromLEOfToLE(high, k - 1);
      assert t[0] == v % 256 && t[1..] == ToLE(high, k - 1);
      assert FromLE(t) == v % 256 + 256 * FromLE(t[1..]);
    }
  }

  lemma {:induction false} ToLEOfFromLE(s: seq<Byte>)
    ensures ToLE(FromLE(s), |s|) == s
  {
    if s != [] {
      var rest := s[1..];
      var v, high := FromLE(s), FromLE(rest);
      assert v == s[0] + 256 * high;
      ByteSplit(s[0], high);
      ToLEOfFromLE(rest);
      assert ToLE(v, |s|) == [v % 256] + ToLE(v / 256, |s| - 1);
      assert s == [s[0]] + rest;
    }
  }

  /** The low byte and the rest of `low + 256 * high`. */
  lemma ByteSplit(low: Byte, high: nat)
    ensures (low + 256 * high) % 256 == low && (low + 256 * high) / 256 == high
  {
  }

  /** The widths the header uses, as plain numbers. */
  lemma PowersOfByte()
    ensures Pow256(2) == 0x1_0000
    ensures Pow256(4) == 0x1_0000_0000
    ensures Pow256(8) == 0x1_0000_0000_0000_0000
  {
    assert Pow256(4) == Pow256(2) * Pow256(2) by { assert Pow256(4) == 256 * 256 * Pow256(2); }
    assert Pow256(8) == 256 * 256 * 256 * 256 * Pow256(4);
  }

  /** ASCII digits '0' .. '9'. */
  const Digit0: Byte := 48

  predicate IsDigit(b: Byte) { Digit0 <= b <= Digit0 + 9 }

  predicate AllDigits(s: seq<Byte>) { forall i :: 0 <= i < |s| ==> IsDigit(s[i]) }

  /** Python's `str(n)` for a non-negative integer, as ASCII bytes. */
  function DecimalText(n: nat): (r: seq<Byte>)
    ensures |r| >= 1 && AllDigits(r)
  {
    if n < 10 then [Digit0 + n] else DecimalText(n / 10) + [Digit0 + n % 10]
  }

  /** The number a string of ASCII digits denotes (what `int(s)` gives back). */
  function DecimalValue(s: seq<Byte>): nat
    requires AllDigits(s)
  {
    if s == [] then 0 else 10 * DecimalValue(s[..|s| - 1]) + (s[|s| - 1] - Digit0)
  }

  lemma {:induction false} DecimalRoundTrip(n: nat)
    ensures DecimalValue(DecimalText(n)) == n
  {
    if n >= 10 {
      DecimalRoundTrip(n / 10);
      var t := DecimalText(n);
      assert t[..|t| - 1] == DecimalText(n / 10);
    }
  }

  /** A number below 10^k is written with at most k digits. */
  lemma {:induction false} DecimalTextLength(n: nat, k: nat, bound: nat)
    requires 1 <= k && n < bound && bound == Pow10(k)
    ensures |DecimalText(n)| <= k
  {
    if n >= 10 {
      assert k >= 2;
      DecimalTextLength(n / 10, k - 1, Pow10(k - 1));
    }
  }

  function Pow10(k: nat): (r: nat)
    ensures r >= 1
  {
    if k == 0 then 1 else 10 * Pow10(k - 1)
  }

  /** Every 64-bit value fits in 20 decimal digits. */
  lemma DecimalTextOfU64(n: U64)
    ensures |DecimalText(n)| <= 20
  {
    var p := Pow10(20);
    assert p == 100_000_000_000_000_000_000 by {
      assert Pow10(5) == 100_000;
      assert Pow10(10) == 100_000 * Pow10(5) by { Pow10Add(5, 5); }
      assert Pow10(20) == Pow10(10) * Pow10(10) by { Pow10Add(10, 10); }
    }
    DecimalTextLength(n, 20, p);
  }

  lemma {:induction false} Pow10Add(a: nat, b: nat)
    ensures Pow10(a + b) == Pow10(a) * Pow10(b)
  {
    if a > 0 {
      Pow10Add(a - 1, b);
      assert Pow10(a + b) == 10 * Pow10(a - 1 + b);
    }
  }
}
