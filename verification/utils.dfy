/**
 * Small helpers of the common utilities: the tail of a string, the signed
 * difference of two wall-clock instants in microseconds, and the
 * sub-second part of the current time. Instants are nanoseconds relative to
 * the Unix epoch; they may lie before it.
 */
module Utils {
  import opened Wrappers

  function Min(a: nat, b: nat): nat
  {
    if a <= b then a else b
  }

  /**
   * Two stretches that each add `n` to a length per unit added to a count
   * compose into one: kept apart so callers need no nonlinear reasoning.
   */
  lemma PerUnitCompose(n: int, l0: int, l1: int, l2: int, c0: int, c1: int, c2: int)
    requires l1 == l0 + n * (c1 - c0) && l2 == l1 + n * (c2 - c1)
    ensures l2 == l0 + n * (c2 - c0)
  {
    assert n * (c2 - c0) == n * (c1 - c0) + n * (c2 - c1);
  }

  /** `usize::saturating_sub`. */
  function SaturatingSub(a: nat, b: nat): nat
  {
    if a >= b then a - b else 0
  }

  /** A UTF-8 continuation byte (`0b10xx_xxxx`): no character starts on it. */
  predicate IsContinuation(b: bv8)
  {
    b & 0xC0 == 0x80
  }

  /** `str::is_char_boundary` on the UTF-8 bytes of a string. */
  predicate IsCharBoundary(s: seq<bv8>, i: nat)
  {
    i == 0 || i == |s| || (i < |s| && !IsContinuation(s[i]))
  }

  /**
   * `last_n_chars` as written: it slices the UTF-8 BYTES of `s` from
   * `len - n`, so it keeps the last `n` bytes, and the slice panics (`None`)
   * when that offset falls inside a multi-byte character.
   */
  function LastNChars(s: seq<bv8>, n: nat): (r: Option<seq<bv8>>)
    ensures r.Some? <==> IsCharBoundary(s, SaturatingSub(|s|, n))
    ensures r.Some? ==> |r.value| == Min(n, |s|) && r.value == s[|s| - |r.value|..]
  {
    var cut := SaturatingSub(|s|, n);
    if IsCharBoundary(s, cut) then Some(s[cut..]) else None
  }

  /** Asking for at least the whole string, or for nothing, never panics. */
  lemma LastNCharsEnds(s: seq<bv8>, n: nat)
    ensures n >= |s| ==> LastNChars(s, n) == Some(s)
    ensures n == 0 ==> LastNChars(s, n) == Some([])
  {
  }

  /** On ASCII text every byte offset is a character boundary. */
  lemma LastNCharsOnAsciiNeverPanics(s: seq<bv8>, n: nat)
    requires forall i :: 0 <= i < |s| ==> s[i] < 0x80
    ensures LastNChars(s, n).Some?
  {
    var cut := SaturatingSub(|s|, n);
    if 0 < cut < |s| {
      assert s[cut] < 0x80;
      assert s[cut] & 0xC0 == 0 || s[cut] & 0xC0 == 0x40;
    }
  }

  /**
   * The discrepancy: "é" is the two bytes C3 A9, and its last character
   * makes the slice start inside it, so the call panics; and "aé" (61 C3 A9)
   * asked for its last two characters yields only "é".
   */
  lemma LastNCharsCountsBytes()
    ensures LastNChars([0xC3, 0xA9], 1).None?
    ensures LastNChars([0x61, 0xC3, 0xA9], 2) == Some([0xC3, 0xA9])
  {
    assert IsContinuation(0xA9);
    assert !IsContinuation(0xC3);
  }

  /**
   * What the name promises: the last `n` characters of a text, or all of it
   * when it is shorter. The text is a sequence of characters of any
   * representation (code points, or bytes of ASCII text).
   */
  function LastNCharsOfText<C>(s: seq<C>, n: nat): (r: seq<C>)
    ensures |r| == Min(n, |s|)
    ensures r == s[|s| - |r|..]
    ensures n >= |s| ==> r == s
    ensures n == 0 ==> r == []
  {
    s[SaturatingSub(|s|, n)..]
  }

  /** On ASCII text, where each byte is a character, the two agree. */
  lemma LastNCharsAgreesOnAscii(s: seq<bv8>, n: nat)
    requires forall i :: 0 <= i < |s| ==> s[i] < 0x80
    ensures LastNChars(s, n) == Some(LastNCharsOfText(s, n))
  {
    LastNCharsOnAsciiNeverPanics(s, n);
  }

  /**
   * `diff_time(start, stop)`: the whole microseconds from `start` to `stop`,
   * negated when `stop` is not later. Each direction truncates its
   * non-negative duration, so the result rounds toward zero.
   */
  function DiffTime(start: int, stop: int): (micros: int)
    ensures start < stop ==> micros >= 0 && 0 <= (stop - start) - 1000 * micros < 1000
    ensures start >= stop ==> micros <= 0 && 0 <= (start - stop) + 1000 * micros < 1000
  {
    if start < stop then (stop - start) / 1000 else -((start - stop) / 1000)
  }

  /** Swapping the instants negates the difference; equal instants are 0 apart. */
  lemma DiffTimeAntisymmetric(a: int, b: int)
    ensures DiffTime(a, b) == -DiffTime(b, a)
    ensures a == b ==> DiffTime(a, b) == 0
  {
  }

  /** Under a microsecond apart, either way, reads as zero. */
  lemma DiffTimeBelowResolution(a: int, b: int)
    requires -1000 < b - a < 1000
    ensures DiffTime(a, b) == 0
  {
  }

  const NANOS_PER_SECOND: nat := 1_000_000_000

  /**
   * `current_ns`: the nanoseconds within the current second. The clock
   * reading is a parameter; a reading before the epoch makes
   * `duration_since(UNIX_EPOCH).unwrap()` panic (`None`).
   */
  function CurrentNs(sinceEpoch: int): (r: Option<nat>)
    ensures r.None? <==> sinceEpoch < 0
    ensures r.Some? ==> r.value < NANOS_PER_SECOND
    ensures r.Some? ==> (sinceEpoch - r.value) % NANOS_PER_SECOND == 0 && r.value <= sinceEpoch
  {
    if sinceEpoch < 0 then None else Some(sinceEpoch % NANOS_PER_SECOND)
  }

  /** Whole seconds added to the clock do not change the reading. */
  lemma CurrentNsIgnoresWholeSeconds(t: nat, seconds: nat)
    ensures CurrentNs(t + seconds * NANOS_PER_SECOND) == CurrentNs(t)
  {
    var u := t + seconds * NANOS_PER_SECOND;
    assert u / NANOS_PER_SECOND == t / NANOS_PER_SECOND + seconds;
  }
}
