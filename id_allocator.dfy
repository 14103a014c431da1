/** Sequential identifiers such as `LG-001`, `KPI-012` or `ISS-004`: the next
    identifier of a table is its prefix, a dash and one more than the largest
    numeric suffix found in the identifier column, zero-padded to three
    digits. Entries whose suffix is not a number are skipped, and entries of
    any prefix take part. */
module IdAllocator {
  import opened Wrappers
  import opened Text

  predicate IsDigit(c: char) {
    '0' <= c <= '9'
  }

  predicate AllDigits(s: string) {
    forall i :: 0 <= i < |s| ==> IsDigit(s[i])
  }

  /** The value of a string of decimal digits, most significant first. */
  function DigitsValue(s: string): nat
    requires AllDigits(s)
  {
    if s == "" then 0 else 10 * DigitsValue(s[..|s| - 1]) + (s[|s| - 1] as int - '0' as int)
  }

  function DigitChar(d: nat): (c: char)
    requires d < 10
    ensures IsDigit(c) && c as int - '0' as int == d
  {
    ('0' as int + d) as char
  }

  /** Python's `str(n)`: the decimal digits of `n` without leading zeros. */
  function Decimal(n: nat): (r: string)
    ensures |r| >= 1 && AllDigits(r)
    ensures DigitsValue(r) == n
    ensures r[0] == '0' ==> n == 0
    ensures n < 1000 ==> |r| <= 3
    ensures n < 100 ==> |r| <= 2
    ensures n < 10 ==> |r| == 1
  {
    if n < 10 then [DigitChar(n)]
    else
      var r := Decimal(n / 10) + [DigitChar(n % 10)];
      assert r[..|r| - 1] == Decimal(n / 10);
      r
  }

  function Zeros(k: nat): (z: string)
    ensures |z| == k && forall i :: 0 <= i < k ==> z[i] == '0'
  {
    seq(k, i => '0')
  }

  /** Leading zeros do not change the value of a digit string. */
  lemma {:induction false} LeadingZeros(k: nat, d: string)
    requires AllDigits(d)
    ensures AllDigits(Zeros(k) + d) && DigitsValue(Zeros(k) + d) == DigitsValue(d)
  {
    var s := Zeros(k) + d;
    if d == "" {
      assert s == Zeros(k);
      if k > 0 {
        assert s[..|s| - 1] == Zeros(k - 1) + "";
        LeadingZeros(k - 1, "");
      }
    } else {
      assert s[..|s| - 1] == Zeros(k) + d[..|d| - 1];
      LeadingZeros(k, d[..|d| - 1]);
    }
  }

  /** Python's `f"{n:03d}"`: the decimal digits of `n`, left-padded with
      zeros to at least three characters. */
  function Pad3(n: nat): (r: string)
    ensures |r| >= 3 && AllDigits(r)
    ensures DigitsValue(r) == n
    ensures n < 1000 ==> |r| == 3
    ensures n >= 100 ==> r == Decimal(n)
  {
    var d := Decimal(n);
    var k := if |d| < 3 then 3 - |d| else 0;
    LeadingZeros(k, d);
    assert n >= 100 ==> |d| >= 3 by {
      if |d| < 3 { LeadingZeros(3 - |d|, d); assert DigitsValue(d) < 100 by { SmallDigits(d); } }
    }
    Zeros(k) + d
  }

  /** A digit string of at most two characters is worth less than 100. */
  lemma SmallDigits(d: string)
    requires AllDigits(d) && |d| <= 2
    ensures DigitsValue(d) < 100
  {
    if d != "" {
      assert DigitsValue(d[..|d| - 1]) < 10 by {
        var e := d[..|d| - 1];
        if e != "" { assert e[..|e| - 1] == ""; }
      }
    }
  }

  /** Python's `int(s)` on a numeric suffix, modelled as a non-empty run of
      ASCII digits; any other string makes `int` raise, which is `None`. */
  function ParseInt(s: string): (r: Option<nat>)
    ensures r.Some? <==> s != "" && AllDigits(s)
    ensures r.Some? ==> r.value == DigitsValue(s)
  {
    if s != "" && AllDigits(s) then Some(DigitsValue(s)) else None
  }

  /** Python's `s.split("-")[-1]`: the text after the last dash, or all of
      `s` when it has none. */
  function LastSegment(s: string): (r: string)
    ensures '-' !in r
  {
    var parts := SplitOn(s, "-");
    var r := parts[|parts| - 1];
    FindChar(r, '-');
    r
  }

  /** The last segment is all of `s`, or the part of `s` that follows a
      dash. */
  lemma LastSegmentIsTail(s: string)
    ensures var r := LastSegment(s);
      r == s || (|r| < |s| && s[|s| - |r| - 1] == '-' && r == s[|s| - |r|..])
  {
    var parts := SplitOn(s, "-");
    var r := LastSegment(s);
    assert r == parts[|parts| - 1];
    LastPartIsTail(parts, s, r);
  }

  lemma LastPartIsTail(parts: seq<string>, s: string, r: string)
    requires |parts| >= 1 && JoinWith(parts, "-") == s && r == parts[|parts| - 1]
    ensures r == s || (|r| < |s| && s[|s| - |r| - 1] == '-' && r == s[|s| - |r|..])
  {
    JoinEndsWithLast(parts, "-");
    if |parts| > 1 {
      assert s[|s| - |r| - 1] == s[|s| - |r| - 1..|s| - |r|][0];
    }
  }

  /** A join ends with its last part, preceded by the separator when there
      are several parts. */
  lemma {:induction false} JoinEndsWithLast(parts: seq<string>, sep: string)
    requires |parts| >= 1
    ensures var j := JoinWith(parts, sep); var l := parts[|parts| - 1];
      |l| <= |j| && j[|j| - |l|..] == l &&
      (|parts| == 1 ==> j == l) &&
      (|parts| > 1 ==> |l| + |sep| <= |j| && j[|j| - |l| - |sep|..|j| - |l|] == sep)
  {
    if |parts| > 1 {
      JoinEndsWithLast(parts[1..], sep);
      var j, rest := JoinWith(parts, sep), JoinWith(parts[1..], sep);
      assert j == parts[0] + sep + rest;
      var l := parts[|parts| - 1];
      if |parts| == 2 {
        assert rest == l;
        assert j[|j| - |l| - |sep|..|j| - |l|] == sep;
      } else {
        assert j[|j| - |rest|..] == rest;
        assert j[|j| - |l| - |sep|..|j| - |l|] == rest[|rest| - |l| - |sep|..|rest| - |l|];
      }
      assert j[|j| - |l|..] == rest[|rest| - |l|..];
    }
  }

  /** The numeric suffix of an identifier, if its last dash-separated segment
      is a number. */
  function Suffix(id: string): (r: Option<nat>)
    ensures r.Some? <==> LastSegment(id) != "" && AllDigits(LastSegment(id))
    ensures r.Some? ==> r.value == DigitsValue(LastSegment(id))
  {
    ParseInt(LastSegment(id))
  }

  /** The numeric suffixes of an identifier column, in column order. */
  function ParsedSuffixes(ids: seq<string>): seq<nat> {
    if ids == [] then []
    else
      var front := ParsedSuffixes(ids[..|ids| - 1]);
      match Suffix(ids[|ids| - 1])
      case Some(v) => front + [v]
      case None => front
  }

  /** The number the next identifier carries. */
  function NextNumber(ids: seq<string>): (n: nat)
    ensures n >= 1
    ensures forall x :: x in ParsedSuffixes(ids) ==> x < n
    ensures n == 1 || n - 1 in ParsedSuffixes(ids)
  {
    var nums := ParsedSuffixes(ids);
    if |nums| == 0 then 1 else MaxOf(nums) + 1
  }

  /** A number is among the parsed suffixes exactly when some identifier of
      the column carries it. */
  lemma {:induction false} ParsedSuffixesAre(ids: seq<string>, v: nat)
    ensures v in ParsedSuffixes(ids) <==> exists j :: 0 <= j < |ids| && Suffix(ids[j]) == Some(v)
  {
    if ids != [] {
      var front := ids[..|ids| - 1];
      ParsedSuffixesAre(front, v);
      if exists j :: 0 <= j < |ids| && Suffix(ids[j]) == Some(v) {
        var j :| 0 <= j < |ids| && Suffix(ids[j]) == Some(v);
        if j < |ids| - 1 { assert front[j] == ids[j]; }
      }
      if exists j :: 0 <= j < |front| && Suffix(front[j]) == Some(v) {
        var j :| 0 <= j < |front| && Suffix(front[j]) == Some(v);
        assert ids[j] == front[j];
      }
    }
  }

  /** The next number is larger than every numeric suffix in the column. */
  lemma NextNumberExceeds(ids: seq<string>, j: nat)
    requires j < |ids| && Suffix(ids[j]).Some?
    ensures Suffix(ids[j]).value < NextNumber(ids)
  {
    ParsedSuffixesAre(ids, Suffix(ids[j]).value);
  }

  /** The next number is the least number from 1 up that exceeds every
      numeric suffix: in particular 1 when no suffix parses. */
  lemma NextNumberIsLeast(ids: seq<string>, n: nat)
    requires n >= 1
    requires forall j :: 0 <= j < |ids| && Suffix(ids[j]).Some? ==> Suffix(ids[j]).value < n
    ensures NextNumber(ids) <= n
  {
    var nums := ParsedSuffixes(ids);
    if |nums| > 0 {
      ParsedSuffixesAre(ids, MaxOf(nums));
    }
  }

  /** The segment after the last dash of `x + "-" + y` is `y` when `y` has no
      dash, whatever dashes `x` holds. */
  lemma LastSegmentAfterDash(x: string, y: string)
    requires '-' !in y
    ensures LastSegment(x + "-" + y) == y
  {
    var s := x + "-" + y;
    var r := LastSegment(s);
    LastSegmentIsTail(s);
    assert s[|x|] == '-';
    if |r| == |y| {
      assert r == s[|x| + 1..] == y;
    }
  }

  /** An allocated identifier reads back as the number it was given. */
  lemma SuffixOfAllocated(prefix: string, n: nat)
    ensures Suffix(prefix + "-" + Pad3(n)) == Some(n)
  {
    var d := Pad3(n);
    DigitsHaveNoDash(d);
    SuffixAfterDash(prefix, d);
  }

  lemma DigitsHaveNoDash(d: string)
    requires AllDigits(d)
    ensures '-' !in d
  {
    forall i | 0 <= i < |d| ensures d[i] != '-' { assert IsDigit(d[i]); }
  }

  /** `next_id(prefix, df, col)` over the values of column `col`. */
  method NextId(prefix: string, ids: seq<string>) returns (id: string)
    ensures id == prefix + "-" + Pad3(NextNumber(ids))
  {
    if |ids| == 0 {
      assert Pad3(1) == "001" by {
        assert Decimal(1) == "1";
      }
      return prefix + "-001";
    }
    var nums: seq<nat> := [];
    for i := 0 to |ids|
      invariant nums == ParsedSuffixes(ids[..i])
    {
      assert ids[..i + 1][..i] == ids[..i];
      match Suffix(ids[i]) {
        case Some(v) => nums := nums + [v];
        case None =>
      }
    }
    assert ids[..|ids|] == ids;
    var n := if |nums| > 0 then MaxOf(nums) + 1 else 1;
    id := prefix + "-" + Pad3(n);
  }

  /** Appending an identifier appends its suffix, if it has one. */
  lemma ParsedSuffixesAppend(ids: seq<string>, id: string)
    ensures ParsedSuffixes(ids + [id]) ==
      if Suffix(id).Some? then ParsedSuffixes(ids) + [Suffix(id).value] else ParsedSuffixes(ids)
  {
    assert (ids + [id])[..|ids|] == ids;
  }

  /** The largest of a list that ends above all its other elements is that
      last element. */
  lemma MaxOfLarger(nums: seq<nat>, n: nat)
    requires forall x :: x in nums ==> x < n
    ensures MaxOf(nums + [n]) == n
  {
    var m := MaxOf(nums + [n]);
    assert n in nums + [n];
    assert m in nums || m == n by {
      assert forall x :: x in nums + [n] ==> x in nums || x == n;
    }
  }

  /** Adding the allocated identifier to the column makes the next
      allocation one higher: identifiers are handed out in sequence and the
      new one differs from every identifier already present. */
  lemma AllocationAdvances(prefix: string, ids: seq<string>)
    ensures var id := prefix + "-" + Pad3(NextNumber(ids));
      id !in ids && NextNumber(ids + [id]) == NextNumber(ids) + 1
  {
    var n := NextNumber(ids);
    var id := prefix + "-" + Pad3(n);
    assert id !in ids by {
      SuffixOfAllocated(prefix, n);
      if id in ids {
        var j :| 0 <= j < |ids| && ids[j] == id;
        NextNumberExceeds(ids, j);
        assert false;
      }
    }
    assert NextNumber(ids + [id]) == n + 1 by {
      SuffixOfAllocated(prefix, n);
      ParsedSuffixesAppend(ids, id);
      MaxOfLarger(ParsedSuffixes(ids), n);
    }
  }

  /** The suffix of `prefix-seg` is `seg` read as a number, whatever the
      prefix, when `seg` has no dash. */
  lemma SuffixAfterDash(prefix: string, seg: string)
    requires '-' !in seg
    ensures Suffix(prefix + "-" + seg) == ParseInt(seg)
  {
    LastSegmentAfterDash(prefix, seg);
  }

  /** An example allocation over mixed identifiers: after `ISS-001`,
      `ISS-003` and the hand-edited `ISS-XYZ` comes `ISS-004` (stated for any
      prefix). */
  lemma ExampleAllocation(prefix: string)
    ensures var ids := [prefix + "-001", prefix + "-003", prefix + "-XYZ"];
      NextNumber(ids) == 4 && prefix + "-" + Pad3(NextNumber(ids)) == prefix + "-004"
  {
    var ids := [prefix + "-001", prefix + "-003", prefix + "-XYZ"];
    assert NextNumber(ids) == 4 by {
      ExampleSuffixes(prefix);
      NextFromSuffixes(ids);
    }
    assert Pad3(4) == "004" by { assert Decimal(4) == "4"; }
  }

  lemma NextFromSuffixes(ids: seq<string>)
    requires |ids| == 3
    requires Suffix(ids[0]) == Some(1) && Suffix(ids[1]) == Some(3) && Suffix(ids[2]) == None
    ensures NextNumber(ids) == 4
  {
    NextNumberExceeds(ids, 1);
    forall j | 0 <= j < |ids| && Suffix(ids[j]).Some? ensures Suffix(ids[j]).value < 4 {
      assert j == 0 || j == 1;
    }
    NextNumberIsLeast(ids, 4);
  }

  lemma ExampleSuffixes(prefix: string)
    ensures Suffix(prefix + "-001") == Some(1)
    ensures Suffix(prefix + "-003") == Some(3)
    ensures Suffix(prefix + "-XYZ") == None
  {
    PaddedSuffix(prefix, 1, "001", prefix + "-001");
    PaddedSuffix(prefix, 3, "003", prefix + "-003");
    HandEditedSuffix(prefix);
  }

  lemma PaddedSuffix(prefix: string, n: nat, digits: string, id: string)
    requires n < 10 && digits == "00" + [DigitChar(n)] && id == prefix + "-" + digits
    ensures Suffix(id) == Some(n)
  {
    assert Pad3(n) == digits by { assert Decimal(n) == [DigitChar(n)]; }
    SuffixOfAllocated(prefix, n);
  }

  lemma HandEditedSuffix(prefix: string)
    ensures Suffix(prefix + "-XYZ") == None
  {
    assert Suffix(prefix + "-" + "XYZ") == None by {
      SuffixAfterDash(prefix, "XYZ");
      assert !IsDigit("XYZ"[0]);
    }
    assert prefix + "-XYZ" == prefix + "-" + "XYZ";
  }
}
