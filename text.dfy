/** The Python `str` built-ins the core relies on, on sequences of code
    points: `isspace`, `strip`, `lower` (ASCII letters), `replace` of one
    character, `find`, `split` with a non-empty separator, `join` and slicing
    with Python's treatment of negative and out-of-range bounds. */
module Text {

  /** Characters for which Python's `str.isspace()` holds. */
  predicate IsSpace(c: char) {
    c == ' ' || ('\t' <= c <= '\r') || ('\U{1C}' <= c <= '\U{1F}')
    || c == '\U{85}' || c == '\U{A0}' || c == '\U{1680}'
    || ('\U{2000}' <= c <= '\U{200A}') || c == '\U{2028}' || c == '\U{2029}'
    || c == '\U{202F}' || c == '\U{205F}' || c == '\U{3000}'
  }

  predicate AllSpace(s: string) {
    forall i :: 0 <= i < |s| ==> IsSpace(s[i])
  }

  /** Neither end of `s` is whitespace. */
  predicate Trimmed(s: string) {
    s == "" || (!IsSpace(s[0]) && !IsSpace(s[|s| - 1]))
  }

  /** Number of whitespace characters at the start of `s`. */
  function LeadingSpaces(s: string): (k: nat)
    ensures k <= |s|
    ensures forall i :: 0 <= i < k ==> IsSpace(s[i])
    ensures k == |s| || !IsSpace(s[k])
  {
    if s == [] || !IsSpace(s[0]) then 0 else 1 + LeadingSpaces(s[1..])
  }

  /** Number of whitespace characters at the end of `s`. */
  function TrailingSpaces(s: string): (k: nat)
    ensures k <= |s|
    ensures forall i :: |s| - k <= i < |s| ==> IsSpace(s[i])
    ensures k == |s| || !IsSpace(s[|s| - 1 - k])
  {
    if s == [] || !IsSpace(s[|s| - 1]) then 0 else 1 + TrailingSpaces(s[..|s| - 1])
  }

  /** Python's `s.strip()`: `s` without its leading and trailing whitespace. */
  function Strip(s: string): (r: string)
    ensures Trimmed(r)
    ensures |r| <= |s|
  {
    var a := LeadingSpaces(s);
    if a == |s| then ""
    else
      var b := |s| - TrailingSpaces(s);
      assert !IsSpace(s[a]);
      s[a..b]
  }

  /** Stripping leaves nothing exactly when the text is all whitespace. */
  lemma StripEmpty(s: string)
    ensures Strip(s) == "" <==> AllSpace(s)
  {
    var a := LeadingSpaces(s);
    if a < |s| {
      assert !IsSpace(s[a]);
    }
  }

  /** A string with no whitespace at either end is its own strip. */
  lemma StripTrimmed(s: string)
    requires Trimmed(s)
    ensures Strip(s) == s
  {
    if s != "" {
      assert LeadingSpaces(s) == 0 && TrailingSpaces(s) == 0;
      assert s[0..|s|] == s;
    }
  }

  /** Stripping removes exactly the whitespace around a trimmed middle part,
      whatever whitespace surrounds it. */
  lemma StripPadded(pre: string, mid: string, post: string)
    requires AllSpace(pre) && AllSpace(post) && Trimmed(mid)
    ensures Strip(pre + mid + post) == mid
  {
    var s := pre + mid + post;
    if mid == "" {
      StripEmpty(s);
      assert AllSpace(s) by {
        forall i | 0 <= i < |s| ensures IsSpace(s[i]) {
          if i < |pre| { assert s[i] == pre[i]; } else { assert s[i] == post[i - |pre|]; }
        }
      }
    } else {
      assert LeadingSpaces(s) == |pre| by {
        assert s == pre + (mid + post) && (mid + post)[0] == mid[0];
        LeadingSpacesOf(pre, mid + post);
      }
      assert TrailingSpaces(s) == |post| by {
        assert (pre + mid)[|pre + mid| - 1] == mid[|mid| - 1];
        TrailingSpacesOf(pre + mid, post);
      }
      assert s[|pre|..|s| - |post|] == mid;
    }
  }

  /** Whitespace followed by a text that starts with a non-space: the
      leading whitespace is exactly the first part. */
  lemma {:induction false} LeadingSpacesOf(pre: string, rest: string)
    requires AllSpace(pre) && rest != "" && !IsSpace(rest[0])
    ensures LeadingSpaces(pre + rest) == |pre|
  {
    if pre == "" {
      assert pre + rest == rest;
    } else {
      assert (pre + rest)[0] == pre[0] && (pre + rest)[1..] == pre[1..] + rest;
      LeadingSpacesOf(pre[1..], rest);
    }
  }

  /** A text that ends with a non-space followed by whitespace: the trailing
      whitespace is exactly the second part. */
  lemma {:induction false} TrailingSpacesOf(rest: string, post: string)
    requires AllSpace(post) && rest != "" && !IsSpace(rest[|rest| - 1])
    ensures TrailingSpaces(rest + post) == |post|
  {
    if post == "" {
      assert rest + post == rest;
    } else {
      var s := rest + post;
      assert s[|s| - 1] == post[|post| - 1] && s[..|s| - 1] == rest + post[..|post| - 1];
      TrailingSpacesOf(rest, post[..|post| - 1]);
    }
  }

  function LowerChar(c: char): char {
    if 'A' <= c <= 'Z' then (c as int + 32) as char else c
  }

  /** Python's `s.lower()` restricted to the ASCII letters. */
  function Lower(s: string): (r: string)
    ensures |r| == |s|
    ensures forall i :: 0 <= i < |s| ==> r[i] == LowerChar(s[i])
  {
    seq(|s|, i requires 0 <= i < |s| => LowerChar(s[i]))
  }

  /** Python's `s.replace(a, b)` for one-character `a` and `b`. */
  function ReplaceChar(s: string, a: char, b: char): (r: string)
    ensures |r| == |s|
    ensures forall i :: 0 <= i < |s| ==> r[i] == if s[i] == a then b else s[i]
  {
    seq(|s|, i requires 0 <= i < |s| => if s[i] == a then b else s[i])
  }

  /** `t` occurs in `s` starting at index `i`. */
  predicate OccursAt(s: string, t: string, i: int) {
    0 <= i && i + |t| <= |s| && s[i..i + |t|] == t
  }

  /** The first index at or after `from` where `t` occurs in `s`, or -1. */
  function FindFrom(s: string, t: string, from: nat): (r: int)
    ensures r == -1 || (from <= r && OccursAt(s, t, r))
    ensures forall i :: from <= i && (r == -1 || i < r) ==> !OccursAt(s, t, i)
    decreases |s| - from
  {
    if from + |t| > |s| then -1
    else if s[from..from + |t|] == t then from
    else FindFrom(s, t, from + 1)
  }

  /** Python's `s.find(t)`: the first index where `t` occurs in `s`, or -1
      when it does not occur at all. */
  function Find(s: string, t: string): (r: int)
    ensures r == -1 || OccursAt(s, t, r)
    ensures forall i :: 0 <= i && (r == -1 || i < r) ==> !OccursAt(s, t, i)
  {
    FindFrom(s, t, 0)
  }

  /** Python's `t in s`. */
  predicate Contains(s: string, t: string) {
    Find(s, t) != -1
  }

  /** Whatever precedes the first occurrence of `t` does not contain `t`. */
  lemma FindBefore(s: string, t: string, k: nat)
    requires t != "" && k <= |s|
    requires Find(s, t) == -1 || k <= Find(s, t)
    ensures Find(s[..k], t) == -1
  {
    var p := s[..k];
    var j := Find(p, t);
    if j != -1 {
      assert p[j..j + |t|] == s[j..j + |t|];
      assert OccursAt(s, t, j);
    }
  }

  /** An occurrence found in a prefix that lies wholly inside it is also the
      first occurrence in the longer string. */
  lemma FindExtends(x: string, y: string, t: string)
    requires Find(x, t) != -1
    ensures Find(x + y, t) == Find(x, t)
  {
    var s := x + y;
    var k := Find(x, t);
    assert s[k..k + |t|] == x[k..k + |t|];
    assert OccursAt(s, t, k);
    var r := Find(s, t);
    assert 0 <= r <= k;
    assert s[r..r + |t|] == x[r..r + |t|];
    assert OccursAt(x, t, r);
  }

  /** A one-character pattern occurs exactly where that character does. */
  lemma FindChar(s: string, c: char)
    ensures Find(s, [c]) == -1 <==> c !in s
  {
    if c in s {
      var i :| 0 <= i < |s| && s[i] == c;
      assert s[i..i + 1] == [c];
      assert OccursAt(s, [c], i);
    }
    var r := Find(s, [c]);
    assert r != -1 ==> s[r..r + 1][0] == s[r];
  }

  /** In `p` followed by a character `p` does not hold, that character is
      first found at the end. */
  lemma FindCharAfter(p: string, c: char)
    requires c !in p
    ensures Find(p + [c], [c]) == |p|
  {
    var s := p + [c];
    FindChar(p, c);
    assert OccursAt(s, [c], |p|) by { assert s[|p|..|p| + 1] == [c]; }
    var r := Find(s, [c]);
    assert 0 <= r <= |p|;
    assert s[r..r + 1][0] == s[r];
    assert forall j :: 0 <= j < |p| ==> s[j] == p[j];
  }

  /** Python's `sep.join(parts)`. */
  function JoinWith(parts: seq<string>, sep: string): (r: string)
    ensures |parts| == 1 ==> r == parts[0]
  {
    if |parts| == 0 then ""
    else if |parts| == 1 then parts[0]
    else parts[0] + sep + JoinWith(parts[1..], sep)
  }

  /** Python's `s.split(sep)` for a non-empty separator: the pieces between
      the non-overlapping occurrences of `sep`, scanned from the left. */
  function SplitOn(s: string, sep: string): (parts: seq<string>)
    requires sep != ""
    ensures |parts| >= 1
    ensures JoinWith(parts, sep) == s
    ensures forall i :: 0 <= i < |parts| ==> !Contains(parts[i], sep)
    decreases |s|
  {
    var i := Find(s, sep);
    if i == -1 then [s]
    else
      FindBefore(s, sep, i);
      var rest := SplitOn(s[i + |sep|..], sep);
      assert ([s[..i]] + rest)[1..] == rest;
      assert s == s[..i] + sep + s[i + |sep|..];
      [s[..i]] + rest
  }

  /** Splitting gives a single piece exactly when the separator does not
      occur. */
  lemma SplitOnSingle(s: string, sep: string)
    requires sep != ""
    ensures |SplitOn(s, sep)| == 1 <==> !Contains(s, sep)
  {
  }

  /** `SplitOn` undoes `JoinWith` when every part but the last is followed by
      the first occurrence of the separator in `part + sep`, and the last part
      does not contain it. */
  lemma {:induction false} SplitJoin(parts: seq<string>, sep: string)
    requires sep != "" && |parts| >= 1
    requires forall i :: 0 <= i < |parts| - 1 ==> Find(parts[i] + sep, sep) == |parts[i]|
    requires !Contains(parts[|parts| - 1], sep)
    ensures SplitOn(JoinWith(parts, sep), sep) == parts
  {
    if |parts| > 1 {
      SplitJoin(parts[1..], sep);
      SplitJoinStep(parts, sep);
    }
  }

  /** A first part followed at once by the separator is split off first. */
  lemma SplitJoinStep(parts: seq<string>, sep: string)
    requires sep != "" && |parts| > 1 && Find(parts[0] + sep, sep) == |parts[0]|
    requires SplitOn(JoinWith(parts[1..], sep), sep) == parts[1..]
    ensures SplitOn(JoinWith(parts, sep), sep) == parts
  {
    var p, rest := parts[0], JoinWith(parts[1..], sep);
    var s := JoinWith(parts, sep);
    assert s == p + sep + rest;
    assert Find(s, sep) == |p| by { FindExtends(p + sep, rest, sep); }
    SplitAtFirst(s, sep, p, rest);
    assert parts == [p] + parts[1..];
  }

  /** A text whose first separator follows `p` splits into `p` and the split
      of what follows that separator. */
  lemma SplitAtFirst(s: string, sep: string, p: string, rest: string)
    requires sep != "" && s == p + sep + rest && Find(s, sep) == |p|
    ensures SplitOn(s, sep) == [p] + SplitOn(rest, sep)
  {
    SplitOnFirst(s, sep, |p|);
    assert s[..|p|] == p && s[|p| + |sep|..] == rest;
  }

  /** When the separator occurs, splitting gives the text before its first
      occurrence, then the split of the text after it. */
  lemma SplitOnFirst(s: string, sep: string, i: int)
    requires sep != "" && i == Find(s, sep) && i != -1
    ensures 0 <= i && i + |sep| <= |s|
    ensures SplitOn(s, sep) == [s[..i]] + SplitOn(s[i + |sep|..], sep)
  {
  }

  lemma SplitJoinChar(parts: seq<string>, c: char)
    requires |parts| >= 1
    requires forall i :: 0 <= i < |parts| ==> c !in parts[i]
    ensures SplitOn(JoinWith(parts, [c]), [c]) == parts
  {
    forall i | 0 <= i < |parts| - 1 ensures Find(parts[i] + [c], [c]) == |parts[i]| {
      FindCharAfter(parts[i], c);
    }
    FindChar(parts[|parts| - 1], c);
    SplitJoin(parts, [c]);
  }

  /** Python's normalisation of a slice bound `i` against a length `n`:
      negative bounds count from the end, and both ends are clamped. */
  function PyIndex(i: int, n: nat): (r: nat)
    ensures r <= n
    ensures 0 <= i <= n ==> r == i
    ensures i < 0 && 0 <= i + n ==> r == i + n
  {
    if i < 0 then (if n + i < 0 then 0 else n + i)
    else if i > n then n
    else i
  }

  /** Python's `s[a:b]`. */
  function PySlice<T>(s: seq<T>, a: int, b: int): (r: seq<T>)
    ensures |r| <= |s|
    ensures 0 <= a <= b <= |s| ==> r == s[a..b]
    ensures 0 <= b <= a ==> r == []
  {
    var i, j := PyIndex(a, |s|), PyIndex(b, |s|);
    if i < j then s[i..j] else []
  }

  /** Python's `min` and `max` of a non-empty list. */
  function MinOf(s: seq<int>): (m: int)
    requires |s| > 0
    ensures m in s && forall x :: x in s ==> m <= x
  {
    if |s| == 1 then s[0]
    else
      var m := MinOf(s[1..]);
      assert forall x :: x in s ==> x == s[0] || x in s[1..];
      if s[0] < m then s[0] else m
  }

  function MaxOf(s: seq<int>): (m: int)
    requires |s| > 0
    ensures m in s && forall x :: x in s ==> x <= m
  {
    if |s| == 1 then s[0]
    else
      var m := MaxOf(s[1..]);
      assert forall x :: x in s ==> x == s[0] || x in s[1..];
      if s[0] > m then s[0] else m
  }
}
