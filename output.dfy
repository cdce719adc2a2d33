/**
 * The column-formatting helpers of src/output.rs: cutting a string to a
 * column width and choosing the unit a memory size is shown in.
 *
 * Rust strings are UTF-8 byte sequences and `str::len` counts bytes, so
 * strings are modelled as sequences of bytes here.
 */
module Output {

  /** An unsigned 8-bit value, one byte of UTF-8 text. */
  newtype Byte = b: int | 0 <= b < 256

  /** The UTF-8 encoding of the ellipsis character U+2026 that marks a truncated string. */
  const Ellipsis: seq<Byte> := [0xE2, 0x80, 0xA6]

  /** A byte that continues a multi-byte UTF-8 character (0b10xxxxxx). */
  predicate IsContinuation(b: Byte) {
    0x80 <= b < 0xC0
  }

  /** `str::is_char_boundary`: where a `&s[..i]` slice may end without panicking. */
  predicate IsCharBoundary(s: seq<Byte>, i: nat) {
    i == 0 || i == |s| || (i < |s| && !IsContinuation(s[i]))
  }

  /** The number of characters of a UTF-8 byte string: every byte that is not a continuation byte starts one. */
  function CharCount(s: seq<Byte>): (n: nat)
    ensures n <= |s|
  {
    if s == [] then 0 else CharCount(s[..|s| - 1]) + (if IsContinuation(s[|s| - 1]) then 0 else 1)
  }

  /** `usize::saturating_sub`. */
  function SaturatingSub(a: nat, b: nat): (r: nat)
    ensures a >= b ==> r + b == a
    ensures a < b ==> r == 0
    ensures r <= a
  {
    if a >= b then a - b else 0
  }

  /** The larger of two numbers. */
  function Max(a: nat, b: nat): (m: nat)
    ensures m >= a && m >= b && (m == a || m == b)
  {
    if a >= b then a else b
  }

  /**
   * `truncate_string` (src/output.rs:60-66): a string that fits in `maxLen`
   * bytes is kept; a longer one keeps a strict prefix of `maxLen - 1` bytes
   * (none when `maxLen` is 0) and gets the ellipsis appended. Slicing a `&str`
   * off a character boundary panics, so that cut must be a boundary.
   */
  function TruncateString(s: seq<Byte>, maxLen: nat): (r: seq<Byte>)
    requires |s| > maxLen ==> IsCharBoundary(s, SaturatingSub(maxLen, 1))
    ensures |s| <= maxLen ==> r == s
    ensures |s| > maxLen ==> |r| == Max(maxLen, 1) + 2
    ensures |s| > maxLen ==> r[..|r| - 3] < s && r[|r| - 3..] == Ellipsis
  {
    if |s| <= maxLen then s else s[..SaturatingSub(maxLen, 1)] + Ellipsis
  }

  /**
   * The truncated string fits the column it was cut for: it has at most
   * `maxLen` characters (one, the ellipsis alone, when `maxLen` is 0), even
   * though the ellipsis takes three bytes.
   */
  lemma TruncateFitsColumn(s: seq<Byte>, maxLen: nat)
    requires |s| > maxLen ==> IsCharBoundary(s, SaturatingSub(maxLen, 1))
    ensures CharCount(TruncateString(s, maxLen)) <= Max(maxLen, 1)
  {
  }

  /** Because the cut length saturates at 0, a zero width turns any non-empty string into the ellipsis alone. */
  lemma TruncateZeroWidth(s: seq<Byte>)
    requires |s| > 0
    ensures TruncateString(s, 0) == Ellipsis
  {
  }

  /**
   * A valid UTF-8 string that `truncate_string` cannot cut at the user column
   * width 8 (src/output.rs:20): "abcdeféx" is nine bytes, and the 7-byte
   * slice ends inside the "é" (C3 A9), so it panics.
   */
  lemma TruncateStringPanicsInsideCharacter()
    ensures var s: seq<Byte> := [0x61, 0x62, 0x63, 0x64, 0x65, 0x66, 0xC3, 0xA9, 0x78];
      |s| > 8 && !IsCharBoundary(s, SaturatingSub(8, 1))
  {
  }

  /** The largest character boundary of `s` that is at most `i` (`str::floor_char_boundary`). */
  function FloorCharBoundary(s: seq<Byte>, i: nat): (r: nat)
    requires i <= |s|
    ensures r <= i && IsCharBoundary(s, r)
    ensures forall j :: r < j <= i ==> !IsCharBoundary(s, j)
  {
    if IsCharBoundary(s, i) then i else FloorCharBoundary(s, i - 1)
  }

  /**
   * `truncate_string` as its purpose needs it: the cut is moved back to the
   * nearest character boundary, so every string can be truncated. Wherever
   * the original does not panic, both agree.
   */
  function TruncateAtCharBoundary(s: seq<Byte>, maxLen: nat): (r: seq<Byte>)
    ensures |s| <= maxLen ==> r == s
    ensures |s| > maxLen ==> 3 <= |r| <= Max(maxLen, 1) + 2
    ensures |s| > maxLen ==> r[..|r| - 3] < s && IsCharBoundary(s, |r| - 3) && r[|r| - 3..] == Ellipsis
    ensures |s| > maxLen ==> |r| - 3 <= SaturatingSub(maxLen, 1)
    ensures |s| > maxLen ==> forall j :: |r| - 3 < j <= SaturatingSub(maxLen, 1) ==> !IsCharBoundary(s, j)
    ensures |s| > maxLen && IsCharBoundary(s, SaturatingSub(maxLen, 1)) ==> r == TruncateString(s, maxLen)
  {
    if |s| <= maxLen then s else s[..FloorCharBoundary(s, SaturatingSub(maxLen, 1))] + Ellipsis
  }

  /** The corrected truncation also fits its column: at most `max(maxLen, 1)` characters. */
  lemma TruncateAtCharBoundaryFitsColumn(s: seq<Byte>, maxLen: nat)
    ensures CharCount(TruncateAtCharBoundary(s, maxLen)) <= Max(maxLen, 1)
  {
  }

  // ----- format_memory -----

  /** The unit letters of src/output.rs:41, indexed by the number of divisions by 1024. */
  const Units: seq<char> := ['B', 'K', 'M', 'G', 'T']

  /** THRESHOLD (src/output.rs:42). */
  const Threshold: nat := 1024

  /** One more than `u64::MAX`. */
  const U64Limit: nat := 0x1_0000_0000_0000_0000

  /** 1024 raised to the power `k`. */
  function Pow1024(k: nat): (p: nat)
    ensures p >= 1
  {
    if k == 0 then 1 else Threshold * Pow1024(k - 1)
  }

  /**
   * The text `format_memory` produces, without the float formatting: "0", a
   * count of bytes with the suffix B, or a size scaled down to a unit, of
   * which the integer part is kept.
   */
  datatype MemoryText = Zero | InBytes(count: nat) | Scaled(whole: nat, unit: char)

  /**
   * The unit a byte count is shown in, as a reference independent of the
   * division loop: the largest unit, up to T, of which there is at least one.
   */
  function UnitFor(bytes: nat): (k: nat)
    ensures k < |Units|
    ensures bytes >= 1 ==> Pow1024(k) <= bytes
    ensures k + 1 < |Units| ==> bytes < Pow1024(k + 1)
  {
    if bytes < 0x400 then 0
    else if bytes < 0x10_0000 then 1
    else if bytes < 0x4000_0000 then 2
    else if bytes < 0x100_0000_0000 then 3
    else 4
  }

  /** A larger factor gives a product larger by at least the other factor. */
  lemma MulStrictlyMonotonic(x: nat, y: nat, d: nat)
    requires x < y
    ensures x * d + d <= y * d
  {
    var k: nat := y - x - 1;
    assert y * d == x * d + (k + 1) * d;
    assert (k + 1) * d == k * d + d;
  }

  /** Euclidean division is determined by quotient and remainder. */
  lemma DivUnique(a: nat, d: nat, q: nat, m: nat)
    requires d >= 1 && m < d && a == q * d + m
    ensures a / d == q
  {
    var q0, m0 := a / d, a % d;
    assert a == q0 * d + m0;
    if q0 < q {
      MulStrictlyMonotonic(q0, q, d);
      assert false;
    } else if q0 > q {
      MulStrictlyMonotonic(q, q0, d);
      assert false;
    }
  }

  /** Dividing by `p` and then by 1024 is dividing by `p * 1024`. */
  lemma DivThenDiv(a: nat, p: nat)
    requires p >= 1
    ensures a / p / Threshold == a / (p * Threshold)
  {
    var q := a / p;
    var q2 := q / Threshold;
    var m := (q % Threshold) * p + a % p;
    assert a == q * p + a % p;
    assert q == q2 * Threshold + q % Threshold;
    assert q * p == q2 * (p * Threshold) + (q % Threshold) * p;
    assert (q % Threshold) * p <= (Threshold - 1) * p;
    DivUnique(a, p * Threshold, q2, m);
  }

  /** `a / p` is below 1024 exactly when `a` is below `p * 1024`. */
  lemma DivBelowThreshold(a: nat, p: nat)
    requires p >= 1
    ensures a / p < Threshold <==> a < p * Threshold
  {
  }

  /**
   * The unit choice of `format_memory` (src/output.rs:44-56) for a byte
   * count: below 1024 it is shown in bytes; otherwise the loop divides by
   * 1024 until the size is below 1024 or the unit is T.
   */
  method FormatBytes(bytes: nat) returns (r: MemoryText)
    ensures bytes < Threshold ==> r == InBytes(bytes)
    ensures bytes >= Threshold ==> r == Scaled(bytes / Pow1024(UnitFor(bytes)), Units[UnitFor(bytes)])
  {
    if bytes < Threshold {
      return InBytes(bytes);
    }
    var size := bytes;
    var unitIndex := 0;
    while size >= Threshold && unitIndex < |Units| - 1
      invariant unitIndex < |Units|
      invariant size == bytes / Pow1024(unitIndex)
      invariant Pow1024(unitIndex) <= bytes
    {
      DivThenDiv(bytes, Pow1024(unitIndex));
      DivBelowThreshold(bytes, Pow1024(unitIndex));
      size := size / Threshold;
      unitIndex := unitIndex + 1;
    }
    DivBelowThreshold(bytes, Pow1024(unitIndex));
    r := Scaled(size, Units[unitIndex]);
  }

  /**
   * `format_memory` (src/output.rs:35-57) for a size in KB. `kb * 1024` is a
   * `u64` product, so the size must not overflow it. A zero size prints "0";
   * any other is at least 1024 bytes, so it is never shown in bytes: its unit
   * is the one `UnitFor` picks, K, M, G or T, and the scaled size rounded down
   * is 1 to 1023, or more only in T.
   */
  method FormatMemory(kb: nat) returns (r: MemoryText)
    requires kb * 1024 < U64Limit
    ensures kb == 0 <==> r == Zero
    ensures kb > 0 ==> r == Scaled(kb * 1024 / Pow1024(UnitFor(kb * 1024)), Units[UnitFor(kb * 1024)])
    ensures kb > 0 ==> r.Scaled? && r.unit in Units[1..] && 1 <= r.whole
    ensures kb > 0 ==> r.whole < Threshold || r.unit == 'T'
  {
    if kb == 0 {
      return Zero;
    }
    var bytes := kb * 1024;
    r := FormatBytes(bytes);
    ScaledRange(bytes);
  }

  /** The scaled size is at least 1 and, below T, less than 1024. */
  lemma ScaledRange(bytes: nat)
    requires bytes >= Threshold
    ensures 1 <= UnitFor(bytes)
    ensures 1 <= bytes / Pow1024(UnitFor(bytes))
    ensures UnitFor(bytes) < 4 ==> bytes / Pow1024(UnitFor(bytes)) < Threshold
  {
  }
}
