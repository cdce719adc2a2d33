/**
 * Process-id enumeration (src/processes.rs): the names of the entries of the
 * process listing directory that are decimal `u32` numbers are the pids.
 *
 * The directory listing itself is an input: either the error of opening the
 * directory, or the sequence of what its iterator yields, each item being an
 * I/O error or an entry whose file name is valid UTF-8 (`Some(name)`) or not
 * (`None`).
 */
module Processes {
  import opened Wrappers

  /** One item of the directory iterator: an error, or an entry's name as `OsStr::to_str` gives it. */
  type Entry = Result<Option<string>>

  /** `u32::MAX`. */
  const U32Max: nat := 0xFFFF_FFFF

  predicate IsDigit(c: char) {
    '0' <= c <= '9'
  }

  predicate AllDigits(s: string) {
    forall i :: 0 <= i < |s| ==> IsDigit(s[i])
  }

  /** The value of a string of decimal digits, most significant first. */
  function DigitsValue(s: string): nat
    requires AllDigits(s)
  {
    if s == [] then 0 else DigitsValue(s[..|s| - 1]) * 10 + (s[|s| - 1] as int - '0' as int)
  }

  /**
   * `str::parse::<u32>`: an optional leading `+`, then at least one ASCII
   * digit, with a value that fits in 32 bits. Rust checks for overflow digit
   * by digit; as the value of a prefix never exceeds the value of the whole,
   * that is the same as checking the final value.
   */
  function ParseU32(s: string): (r: Option<nat>)
    ensures r.Some? ==> r.value <= U32Max
    ensures s == [] || s == "+" ==> r == None
    ensures |s| > 0 && s[0] == '-' ==> r == None
    ensures r.Some? ==> |s| > 0 && (s[0] == '+' || IsDigit(s[0]))
    ensures r.Some? ==> forall i :: 0 < i < |s| ==> IsDigit(s[i])
  {
    var digits := if |s| > 0 && s[0] == '+' then s[1..] else s;
    if digits != [] && AllDigits(digits) && DigitsValue(digits) <= U32Max then Some(DigitsValue(digits)) else None
  }

  /** The decimal digit character for `d`. */
  function DigitChar(d: nat): (c: char)
    requires d < 10
    ensures IsDigit(c) && c as int - '0' as int == d
  {
    ('0' as int + d) as char
  }

  /** `u32::to_string`: the decimal numeral of `n`, without leading zeros. */
  function Decimal(n: nat): (s: string)
    ensures s != []
  {
    if n < 10 then [DigitChar(n)] else Decimal(n / 10) + [DigitChar(n % 10)]
  }

  lemma {:induction false} DecimalValue(n: nat)
    ensures AllDigits(Decimal(n)) && DigitsValue(Decimal(n)) == n
  {
    if n >= 10 {
      DecimalValue(n / 10);
      var s := Decimal(n);
      assert s[..|s| - 1] == Decimal(n / 10);
    }
  }

  /** Every pid prints as a name that parses back to it, with or without a leading `+`. */
  lemma ParseDecimal(n: nat)
    requires n <= U32Max
    ensures ParseU32(Decimal(n)) == Some(n)
    ensures ParseU32("+" + Decimal(n)) == Some(n)
  {
    DecimalValue(n);
    var d := Decimal(n);
    assert d[0] != '+' by { assert IsDigit(d[0]); }
    assert ("+" + d)[1..] == d;
  }

  /** `k` zero digits. */
  function Zeros(k: nat): (z: string)
    ensures |z| == k && AllDigits(z)
  {
    if k == 0 then [] else Zeros(k - 1) + ['0']
  }

  /** Leading zeros do not change the value of a digit string. */
  lemma {:induction false} ZerosValue(k: nat, d: string)
    requires AllDigits(d)
    ensures AllDigits(Zeros(k) + d) && DigitsValue(Zeros(k) + d) == DigitsValue(d)
    decreases |d|, k
  {
    var z := Zeros(k) + d;
    if d == [] {
      assert z == Zeros(k);
      if k > 0 {
        ZerosValue(k - 1, []);
        assert Zeros(k - 1) + [] == Zeros(k - 1);
      }
    } else {
      var n := |d| - 1;
      ZerosValue(k, d[..n]);
      assert z[..|z| - 1] == Zeros(k) + d[..n];
    }
  }

  /** Every non-empty digit string is the numeral of its value after some leading zeros. */
  lemma {:induction false} DigitsShape(d: string) returns (k: nat)
    requires d != [] && AllDigits(d)
    ensures d == Zeros(k) + Decimal(DigitsValue(d))
  {
    var n := |d| - 1;
    var c := d[n];
    var v := DigitsValue(d);
    if n == 0 {
      k := 0;
      assert DigitChar(c as int - '0' as int) == c;
      assert d == [c];
    } else {
      var init := d[..n];
      assert d == init + [c];
      var k0 := DigitsShape(init);
      var v0 := DigitsValue(init);
      assert v == v0 * 10 + (c as int - '0' as int);
      assert DigitChar(c as int - '0' as int) == c;
      if v0 == 0 {
        k := k0 + 1;
        assert Decimal(0) == ['0'];
        assert init == Zeros(k);
        assert Decimal(v) == [c];
      } else {
        k := k0;
        assert v / 10 == v0 && v % 10 == c as int - '0' as int;
        assert Decimal(v) == Decimal(v0) + [c];
      }
    }
  }

  /** What `str::parse::<u32>` accepts is a numeral after an optional `+` and some zeros. */
  lemma ParsedShape(s: string, n: nat) returns (k: nat)
    requires ParseU32(s) == Some(n)
    ensures s == Zeros(k) + Decimal(n) || s == "+" + (Zeros(k) + Decimal(n))
  {
    if |s| > 0 && s[0] == '+' {
      k := DigitsShape(s[1..]);
      assert s == "+" + s[1..];
    } else {
      k := DigitsShape(s);
    }
  }

  /** A numeral of a `u32` parses to its value after any zeros and an optional `+`. */
  lemma PaddedParses(k: nat, n: nat)
    requires n <= U32Max
    ensures ParseU32(Zeros(k) + Decimal(n)) == Some(n)
    ensures ParseU32("+" + (Zeros(k) + Decimal(n))) == Some(n)
  {
    var digits := Zeros(k) + Decimal(n);
    DecimalValue(n);
    ZerosValue(k, Decimal(n));
    assert digits[0] != '+' by {
      if k > 0 {
        assert digits[0] == Zeros(k)[0];
      } else {
        assert digits == Decimal(n);
      }
    }
    assert ("+" + digits)[1..] == digits;
  }

  /**
   * The names `str::parse::<u32>` accepts are exactly the decimal numerals of
   * values up to 4294967295, each optionally preceded by `+` and by zeros.
   */
  lemma ParseU32Accepts(s: string, n: nat)
    ensures ParseU32(s) == Some(n) <==>
      n <= U32Max && exists k :: s == Zeros(k) + Decimal(n) || s == "+" + (Zeros(k) + Decimal(n))
  {
    if ParseU32(s) == Some(n) {
      var k := ParsedShape(s, n);
    }
    if n <= U32Max && exists k :: s == Zeros(k) + Decimal(n) || s == "+" + (Zeros(k) + Decimal(n)) {
      var k :| s == Zeros(k) + Decimal(n) || s == "+" + (Zeros(k) + Decimal(n));
      PaddedParses(k, n);
    }
  }

  /** The pids one entry contributes: its name's value when the name is valid UTF-8 and parses. */
  function PidOf(e: Entry): seq<nat> {
    match e
    case Ok(Some(name)) =>
      (match ParseU32(name)
       case Some(pid) => [pid]
       case None => [])
    case _ => []
  }

  /** Whether an entry is readable and names a pid. */
  predicate NamesPid(e: Entry) {
    e.Ok? && e.value.Some? && ParseU32(e.value.value).Some?
  }

  /** The pids named by the entries, in iteration order. */
  function ParsedPids(entries: seq<Entry>): seq<nat> {
    if entries == [] then [] else ParsedPids(entries[..|entries| - 1]) + PidOf(entries[|entries| - 1])
  }

  /** The error of the first entry that is an error, if there is one. */
  function FirstError(entries: seq<Entry>): Option<IoError> {
    if entries == [] then None
    else if entries[0].Err? then Some(entries[0].error)
    else FirstError(entries[1..])
  }

  /**
   * What `get_pids` returns for a listing: the error of opening the
   * directory, else the error of its first failing entry, else the pids.
   */
  function GetPidsSpec(listing: Result<seq<Entry>>): Result<seq<nat>> {
    match listing
    case Err(e) => Err(e)
    case Ok(entries) =>
      match FirstError(entries)
      case Some(e) => Err(e)
      case None => Ok(ParsedPids(entries))
  }

  /** The first failing entry decides the error. */
  lemma {:induction false} FirstErrorAt(entries: seq<Entry>, k: nat)
    requires k < |entries| && entries[k].Err?
    requires forall i :: 0 <= i < k ==> entries[i].Ok?
    ensures FirstError(entries) == Some(entries[k].error)
  {
    if k > 0 {
      FirstErrorAt(entries[1..], k - 1);
    }
  }

  /** Without failing entries there is no error. */
  lemma {:induction false} NoFirstError(entries: seq<Entry>)
    requires forall i :: 0 <= i < |entries| ==> entries[i].Ok?
    ensures FirstError(entries) == None
  {
    if entries != [] {
      NoFirstError(entries[1..]);
    }
  }

  /**
   * `get_pids` (src/processes.rs:4-17): the `?` on `read_dir` and on each
   * entry return the first error; names that are not UTF-8 or not a `u32`
   * are skipped; the others are pushed in iteration order.
   */
  method GetPids(listing: Result<seq<Entry>>) returns (r: Result<seq<nat>>)
    ensures r == GetPidsSpec(listing)
  {
    if listing.Err? {
      return Err(listing.error);
    }
    var entries := listing.value;
    var pids: seq<nat> := [];
    var k := 0;
    while k < |entries|
      invariant k <= |entries|
      invariant forall i :: 0 <= i < k ==> entries[i].Ok?
      invariant pids == ParsedPids(entries[..k])
    {
      var entry := entries[k];
      if entry.Err? {
        FirstErrorAt(entries, k);
        return Err(entry.error);
      }
      match entry.value {
        case Some(name) =>
          var parsed := ParseU32(name);
          if parsed.Some? {
            pids := pids + [parsed.value];
          }
        case None =>
      }
      assert entries[..k + 1][..k] == entries[..k];
      k := k + 1;
    }
    NoFirstError(entries);
    assert entries[..k] == entries;
    return Ok(pids);
  }

  /** Concatenated listings give concatenated pids: the output keeps the iteration order. */
  lemma {:induction false} ParsedPidsAppend(a: seq<Entry>, b: seq<Entry>)
    ensures ParsedPids(a + b) == ParsedPids(a) + ParsedPids(b)
    decreases |b|
  {
    if b == [] {
      assert a + b == a;
    } else {
      var last := |b| - 1;
      assert (a + b)[..|a + b| - 1] == a + b[..last];
      ParsedPidsAppend(a, b[..last]);
    }
  }

  /** A pid is returned exactly when some readable entry's name parses to it. */
  lemma {:induction false} ParsedPidsMembership(entries: seq<Entry>, pid: nat)
    ensures pid in ParsedPids(entries) <==>
      exists i :: 0 <= i < |entries| && NamesPid(entries[i]) && ParseU32(entries[i].value.value) == Some(pid)
  {
    if entries != [] {
      var init := entries[..|entries| - 1];
      ParsedPidsMembership(init, pid);
      if pid in ParsedPids(entries) && pid !in ParsedPids(init) {
        var i := |entries| - 1;
        assert NamesPid(entries[i]) && ParseU32(entries[i].value.value) == Some(pid);
      }
      if exists i :: 0 <= i < |entries| && NamesPid(entries[i]) && ParseU32(entries[i].value.value) == Some(pid) {
        var i :| 0 <= i < |entries| && NamesPid(entries[i]) && ParseU32(entries[i].value.value) == Some(pid);
        if i < |init| {
          assert init[i] == entries[i];
        }
      }
    }
  }

  /** Every returned pid is a `u32`, and there are never more pids than entries. */
  lemma {:induction false} ParsedPidsBounded(entries: seq<Entry>)
    ensures |ParsedPids(entries)| <= |entries|
    ensures forall pid :: pid in ParsedPids(entries) ==> pid <= U32Max
  {
    if entries != [] {
      ParsedPidsBounded(entries[..|entries| - 1]);
    }
  }

  /** The positions of the entries that name a pid. */
  function PidPositions(entries: seq<Entry>): set<nat> {
    set i: nat | i < |entries| && NamesPid(entries[i])
  }

  /** Appending an entry adds its position exactly when it names a pid. */
  lemma PidPositionsSnoc(entries: seq<Entry>)
    requires entries != []
    ensures var n := |entries| - 1;
      PidPositions(entries) == PidPositions(entries[..n]) + (if NamesPid(entries[n]) then {n} else {})
  {
  }

  /** One pid is returned per entry whose name parses. */
  lemma {:induction false} ParsedPidsCount(entries: seq<Entry>)
    ensures |ParsedPids(entries)| == |PidPositions(entries)|
  {
    if entries != [] {
      var n := |entries| - 1;
      ParsedPidsCount(entries[..n]);
      PidPositionsSnoc(entries);
      assert n !in PidPositions(entries[..n]);
    }
  }

  /** There is a first error exactly when some entry is an error. */
  lemma {:induction false} FirstErrorExists(entries: seq<Entry>)
    ensures FirstError(entries).Some? <==> exists i :: 0 <= i < |entries| && entries[i].Err?
  {
    if entries != [] {
      FirstErrorExists(entries[1..]);
      if exists i :: 0 <= i < |entries| && entries[i].Err? {
        var i :| 0 <= i < |entries| && entries[i].Err?;
        if i > 0 {
          assert entries[1..][i - 1].Err?;
        }
      }
    }
  }

  /** The call fails exactly when opening the listing fails or one of its entries is an error. */
  lemma GetPidsFails(listing: Result<seq<Entry>>)
    ensures GetPidsSpec(listing).Err? <==>
      listing.Err? || exists i :: 0 <= i < |listing.value| && listing.value[i].Err?
  {
    if listing.Ok? {
      FirstErrorExists(listing.value);
    }
  }
}
