/** The three ways the application reads structured text back out of a
    language model's answer: the 6W2H plan filled from `key: value` lines,
    the three `#####`-marked sections of a streamed suggestion, and the three
    sections enclosed in Thai tags of a non-streamed suggestion. */
module LlmParsers {
  import opened Wrappers
  import opened Text

  // ---------------------------------------------------------------------
  // The 6W2H plan parser
  // ---------------------------------------------------------------------

  /** The plan fields a line of the answer may set. */
  const PlanKeys: set<string> := {"who", "whom", "what", "where", "when", "why", "how", "how_much"}

  /** A key as written by the model, stripped, lower-cased and with its
      spaces turned into underscores. */
  function NormalizeKey(k: string): (key: string)
    ensures ' ' !in key && |key| <= |k|
  {
    ReplaceChar(Lower(Strip(k)), ' ', '_')
  }

  /** A line split at its first colon into its normalised key and its
      stripped value; `None` for a line without a colon. */
  function KeyValue(line: string): (kv: Option<(string, string)>)
    ensures kv.None? <==> ':' !in line
  {
    FindChar(line, ':');
    var i := Find(line, ":");
    if i == -1 then None
    else Some((NormalizeKey(line[..i]), Strip(line[i + 1..])))
  }

  /** A line `k: v` whose key part has no colon gives the normalised `k` and
      the stripped `v`, whatever colons `v` holds. */
  lemma KeyValueOf(k: string, v: string)
    requires ':' !in k
    ensures KeyValue(k + ":" + v) == Some((NormalizeKey(k), Strip(v)))
  {
    var line := k + ":" + v;
    FindCharAfter(k, ':');
    FindExtends(k + ":", v, ":");
    assert Find(line, ":") == |k|;
    assert line[..|k|] == k && line[|k| + 1..] == v;
  }

  /** A line with a colon is split at the first one: the key is what comes
      before it, the value what comes after it. */
  lemma KeyValueAt(line: string)
    requires ':' in line
    ensures var c := Find(line, ":");
      0 <= c < |line| && line[c] == ':' && ':' !in line[..c]
      && KeyValue(line) == Some((NormalizeKey(line[..c]), Strip(line[c + 1..])))
  {
    var c := Find(line, ":");
    assert c != -1 by { FindChar(line, ':'); }
    assert 0 <= c < |line| && line[c] == ':' by { assert line[c..c + 1] == ":"; }
    assert ':' !in line[..c] by {
      FindBefore(line, ":", c);
      FindChar(line[..c], ':');
    }
  }

  /** "How much" is read as the `how_much` field. */
  lemma HowMuchKey()
    ensures NormalizeKey("How much") == "how_much"
  {
    StripTrimmed("How much");
    LowerHowMuch();
    UnderscoreHowMuch();
    NormalizeSteps("How much", "how much", "how_much");
  }

  lemma LowerHowMuch()
    ensures Lower("How much") == "how much"
  {
    assert |Lower("How much")| == |"how much"|;
  }

  lemma UnderscoreHowMuch()
    ensures ReplaceChar("how much", ' ', '_') == "how_much"
  {
    assert |ReplaceChar("how much", ' ', '_')| == |"how_much"|;
  }

  lemma NormalizeSteps(k: string, lowered: string, key: string)
    requires Lower(Strip(k)) == lowered && ReplaceChar(lowered, ' ', '_') == key
    ensures NormalizeKey(k) == key
  {
  }

  /** The plan after a line read as `kv`: a key that is a plan field sets
      that field to its value; anything else leaves the plan as it was. */
  function ApplyPair(plan: map<string, string>, kv: Option<(string, string)>): map<string, string> {
    match kv
    case Some((k, v)) => if k in PlanKeys then plan[k := v] else plan
    case None => plan
  }

  /** The plan after one line. */
  function ApplyLine(plan: map<string, string>, line: string): (r: map<string, string>)
    ensures plan.Keys <= r.Keys <= plan.Keys + PlanKeys
    ensures forall k :: k in plan && k !in PlanKeys ==> r[k] == plan[k]
  {
    ApplyPair(plan, KeyValue(line))
  }

  /** The plan after the lines, applied first to last: it keeps every key it
      had, and gains only plan fields. */
  function ApplyLines(plan: map<string, string>, lines: seq<string>): (r: map<string, string>)
    ensures plan.Keys <= r.Keys <= plan.Keys + PlanKeys
  {
    if lines == [] then plan
    else ApplyLine(ApplyLines(plan, lines[..|lines| - 1]), lines[|lines| - 1])
  }

  /** The value of the last line whose key is `k`, if any. */
  function LastValue(lines: seq<string>, k: string): Option<string> {
    if lines == [] then None
    else
      var kv := KeyValue(lines[|lines| - 1]);
      if kv.Some? && kv.value.0 == k then Some(kv.value.1)
      else LastValue(lines[..|lines| - 1], k)
  }

  /** The lines of the answer: the stripped answer split at line feeds. */
  function AnswerLines(llmOutput: string): (lines: seq<string>)
    ensures |lines| >= 1 && JoinWith(lines, "\n") == Strip(llmOutput)
    ensures forall i :: 0 <= i < |lines| ==> !Contains(lines[i], "\n")
  {
    SplitOn(Strip(llmOutput), "\n")
  }

  /** One line, for one key: it sets `k` when its key is `k` and `k` is a
      plan field; otherwise the entry for `k` is as before. */
  lemma ApplyPairAt(plan: map<string, string>, kv: Option<(string, string)>, k: string)
    ensures var r := ApplyPair(plan, kv);
      if kv.Some? && kv.value.0 == k && k in PlanKeys then k in r && r[k] == kv.value.1
      else (k in r <==> k in plan) && (k in plan ==> r[k] == plan[k])
  {
    if kv.Some? && kv.value.0 in PlanKeys {
      assert ApplyPair(plan, kv) == plan[kv.value.0 := kv.value.1];
    } else {
      assert ApplyPair(plan, kv) == plan;
    }
  }

  /** Last write wins, for one key: a plan field named by some line holds
      the value of the last such line; any other key is exactly as before. */
  lemma {:induction false} ApplyLinesAt(plan: map<string, string>, lines: seq<string>, k: string)
    ensures var r := ApplyLines(plan, lines);
      if k in PlanKeys && LastValue(lines, k).Some? then k in r && r[k] == LastValue(lines, k).value
      else (k in r <==> k in plan) && (k in plan ==> r[k] == plan[k])
  {
    if lines != [] {
      var init, last := lines[..|lines| - 1], lines[|lines| - 1];
      ApplyLinesAt(plan, init, k);
      ApplyPairAt(ApplyLines(plan, init), KeyValue(last), k);
    }
  }

  /** Last write wins: every plan field named by some line holds the value of
      the last such line, and every other entry of the plan (fields no line
      names, and keys that are not plan fields) is exactly as before. */
  lemma ApplyLinesLastWins(plan: map<string, string>, lines: seq<string>)
    ensures var r := ApplyLines(plan, lines);
      (forall k :: k in PlanKeys && LastValue(lines, k).Some? ==> k in r && r[k] == LastValue(lines, k).value)
      && (forall k :: k !in PlanKeys ==> (k in r <==> k in plan) && (k in plan ==> r[k] == plan[k]))
      && (forall k :: LastValue(lines, k).None? ==> (k in r <==> k in plan) && (k in plan ==> r[k] == plan[k]))
  {
    forall k {
      ApplyLinesAt(plan, lines, k);
    }
  }

  /** The plan after one more line is the plan after the earlier lines with
      that line applied. */
  lemma ApplyLinesSnoc(plan: map<string, string>, lines: seq<string>, i: nat)
    requires i < |lines|
    ensures ApplyLines(plan, lines[..i + 1]) == ApplyLine(ApplyLines(plan, lines[..i]), lines[i])
  {
    assert lines[..i + 1][..i] == lines[..i];
  }

  /** Applying a line with a colon, by the key before its first colon. */
  lemma ApplyLineColon(plan: map<string, string>, line: string)
    requires ':' in line
    ensures 0 <= Find(line, ":") < |line|
    ensures var c := Find(line, ":"); var key := NormalizeKey(line[..c]);
      ApplyLine(plan, line) == if key in PlanKeys then plan[key := Strip(line[c + 1..])] else plan
  {
    KeyValueAt(line);
  }

  /** Reads the model's answer into the plan: every line with a colon whose
      normalised key is one of the eight fields overwrites that field with its
      stripped value. */
  method Apply6W2H(plan: map<string, string>, llmOutput: string) returns (updated: map<string, string>)
    ensures updated == ApplyLines(plan, AnswerLines(llmOutput))
  {
    var lines := AnswerLines(llmOutput);
    updated := plan;
    for i := 0 to |lines|
      invariant updated == ApplyLines(plan, lines[..i])
    {
      var line := lines[i];
      ApplyLinesSnoc(plan, lines, i);
      if ':' in line {
        ApplyLineColon(updated, line);
        var c := Find(line, ":");
        var key := NormalizeKey(line[..c]);
        var value := Strip(line[c + 1..]);
        if key in PlanKeys {
          updated := updated[key := value];
        }
      }
    }
    assert lines[..|lines|] == lines;
  }

  // ---------------------------------------------------------------------
  // The `#####` section splitter
  // ---------------------------------------------------------------------

  /** The marker that opens each section of a streamed suggestion. */
  const Marker := "#####"

  /** The audit issues, expected findings and draft report of a suggestion. */
  datatype Suggestion = Suggestion(issues: string, findings: string, report: string)

  /** Piece `i` of the split text with its marker `m` put back, or "" when
      the text has fewer pieces. */
  function Section(parts: seq<string>, i: nat, m: string): string {
    if |parts| > i then m + parts[i] else ""
  }

  /** The text split at every marker; the piece before the first marker is
      dropped and the next three become the three sections. */
  function SplitSections(text: string): (r: Suggestion)
    ensures r.issues == "" <==> !Contains(text, Marker)
    ensures r.findings != "" ==> r.issues != ""
    ensures r.report != "" ==> r.findings != ""
  {
    var parts := SplitOn(text, Marker);
    SplitOnSingle(text, Marker);
    Suggestion(Section(parts, 1, Marker), Section(parts, 2, Marker), Section(parts, 3, Marker))
  }

  /** Joining two or more pieces puts the first, then the separator, then
      the rest joined. */
  lemma JoinCons(p: seq<string>, sep: string)
    requires |p| >= 2
    ensures JoinWith(p, sep) == p[0] + sep + JoinWith(p[1..], sep)
  {
  }

  /** The first piece and the next three, each with its marker put back,
      rebuild the joined pieces, up to the pieces after the fourth. */
  lemma ReassembleParts(p: seq<string>, m: string)
    requires |p| >= 1
    ensures if |p| <= 4 then p[0] + Section(p, 1, m) + Section(p, 2, m) + Section(p, 3, m) == JoinWith(p, m)
      else p[0] + Section(p, 1, m) + Section(p, 2, m) + Section(p, 3, m) + m + JoinWith(p[4..], m) == JoinWith(p, m)
  {
    if |p| == 1 {
      assert p[0] + "" + "" + "" == p[0];
    } else if |p| == 2 {
      ReassembleTwo(p, m);
    } else if |p| == 3 {
      ReassembleThree(p, m);
    } else {
      ReassembleFour(p, m);
    }
  }

  lemma ReassembleTwo(p: seq<string>, m: string)
    requires |p| == 2
    ensures p[0] + Section(p, 1, m) + Section(p, 2, m) + Section(p, 3, m) == JoinWith(p, m)
  {
    JoinCons(p, m);
    assert JoinWith(p[1..], m) == p[1];
    RegroupTwo(p[0], p[1], m);
  }

  lemma ReassembleThree(p: seq<string>, m: string)
    requires |p| == 3
    ensures p[0] + Section(p, 1, m) + Section(p, 2, m) + Section(p, 3, m) == JoinWith(p, m)
  {
    var q1 := p[1..];
    JoinCons(p, m);
    JoinCons(q1, m);
    assert q1[0] == p[1] && JoinWith(q1[1..], m) == p[2];
    RegroupThree(p[0], p[1], p[2], m);
  }

  /** Four or more pieces: `t` is what follows the fourth piece in the join. */
  lemma ReassembleFour(p: seq<string>, m: string)
    requires |p| >= 4
    ensures var t := if |p| == 4 then "" else m + JoinWith(p[4..], m);
      p[0] + Section(p, 1, m) + Section(p, 2, m) + Section(p, 3, m) + t == JoinWith(p, m)
  {
    var q1 := p[1..];
    var q2 := q1[1..];
    var q3 := q2[1..];
    JoinCons(p, m);
    JoinCons(q1, m);
    JoinCons(q2, m);
    assert q1[0] == p[1] && q2[0] == p[2] && q3[0] == p[3];
    var t := if |p| == 4 then "" else m + JoinWith(p[4..], m);
    if |p| == 4 {
      assert JoinWith(q3, m) == p[3] + t;
    } else {
      JoinCons(q3, m);
      assert q3[1..] == p[4..];
      AppendAssoc(p[3], m, JoinWith(p[4..], m));
    }
    RegroupFour(p[0], p[1], p[2], p[3], t, m);
  }

  /** Two pieces with their markers, in the nesting of a join. */
  lemma RegroupTwo(p0: string, p1: string, m: string)
    ensures p0 + (m + p1) + "" + "" == p0 + m + p1
  {
    AppendAssoc(p0, m, p1);
  }

  /** Three pieces with their markers, in the nesting of a join. */
  lemma RegroupThree(p0: string, p1: string, p2: string, m: string)
    ensures p0 + (m + p1) + (m + p2) + "" == p0 + m + (p1 + m + p2)
  {
    AppendAssoc(p0, m, p1);
    AppendAssoc(p0 + m + p1, m, p2);
    AppendAssoc(p0 + m, p1 + m, p2);
    AppendAssoc(p0 + m, p1, m);
  }

  /** Four pieces with their markers, then `t`, in the nesting of a join. */
  lemma RegroupFour(p0: string, p1: string, p2: string, p3: string, t: string, m: string)
    ensures p0 + (m + p1) + (m + p2) + (m + p3) + t == p0 + m + (p1 + m + (p2 + m + (p3 + t)))
  {
    var l1 := p0 + m + p1;
    AppendAssoc(p0, m, p1);
    AppendAssoc(l1, m, p2);
    var l2 := l1 + m + p2;
    AppendAssoc(l2, m, p3);
    var l3 := l2 + m + p3;
    AppendAssoc(p2 + m, p3, t);
    AppendAssoc(p1 + m, p2 + m + p3, t);
    AppendAssoc(p0 + m, p1 + m + (p2 + m + p3), t);
    AppendAssoc(p1 + m, p2 + m, p3);
    AppendAssoc(p1 + m, p2, m);
    AppendAssoc(p0 + m, p1 + m + p2 + m, p3);
    AppendAssoc(p0 + m, p1 + m + p2, m);
    AppendAssoc(p0 + m, p1 + m, p2);
    AppendAssoc(p0 + m, p1, m);
  }

  /** The text before the first marker followed by the three sections is the
      whole text when it has at most three markers; with more, the text goes
      on with a marker and the pieces that are dropped. */
  lemma SectionsReassemble(text: string)
    ensures var parts := SplitOn(text, Marker); var r := SplitSections(text);
      if |parts| <= 4 then parts[0] + r.issues + r.findings + r.report == text
      else parts[0] + r.issues + r.findings + r.report + Marker + JoinWith(parts[4..], Marker) == text
  {
    ReassembleParts(SplitOn(text, Marker), Marker);
  }

  /** A preamble and three marked sections, none holding a marker (not even
      one that begins inside it and runs into the next marker), are read
      back as those three sections. */
  lemma SectionsOfMarked(pre: string, a: string, b: string, c: string)
    requires Find(pre + Marker, Marker) == |pre|
    requires Find(a + Marker, Marker) == |a| && Find(b + Marker, Marker) == |b|
    requires !Contains(c, Marker)
    ensures SplitSections(pre + Marker + a + Marker + b + Marker + c)
      == Suggestion(Marker + a, Marker + b, Marker + c)
  {
    SplitFour(pre, a, b, c, Marker);
  }

  /** Four pieces joined by a separator none of them holds split back into
      those four pieces. */
  lemma SplitFour(pre: string, a: string, b: string, c: string, m: string)
    requires m != ""
    requires Find(pre + m, m) == |pre|
    requires Find(a + m, m) == |a| && Find(b + m, m) == |b|
    requires !Contains(c, m)
    ensures SplitOn(pre + m + a + m + b + m + c, m) == [pre, a, b, c]
  {
    var parts := [pre, a, b, c];
    forall i | 0 <= i < |parts| - 1 ensures Find(parts[i] + m, m) == |parts[i]| {
      assert parts[i] == pre || parts[i] == a || parts[i] == b;
    }
    SplitJoin(parts, m);
    assert parts[1..] == [a, b, c] && [a, b, c][1..] == [b, c] && [b, c][1..] == [c];
    JoinCons([b, c], m);
    JoinCons([a, b, c], m);
    JoinCons(parts, m);
    AppendAssoc(a + m, b + m, c);
    AppendAssoc(a + m, b, m);
    AppendAssoc(pre + m, a + m + b + m, c);
    AppendAssoc(pre + m, a + m + b, m);
    AppendAssoc(pre + m, a + m, b);
    AppendAssoc(pre + m, a, m);
  }

  lemma AppendAssoc(x: string, y: string, z: string)
    ensures x + (y + z) == x + y + z
  {
  }

  // ---------------------------------------------------------------------
  // The tag-delimited section extractor
  // ---------------------------------------------------------------------

  function OpenTag(name: string): string {
    "<" + name + ">"
  }

  function CloseTag(name: string): string {
    "</" + name + ">"
  }

  const IssuesTag := "ประเด็นการตรวจสอบที่ควรให้ความสำคัญ"
  const FindingsTag := "ข้อตรวจพบที่คาดว่าจะพบ"
  const ReportTag := "ร่างรายงานตรวจสอบที่จะเจอ"

  /** The text after the first opening tag and before the first closing tag,
      stripped, with Python's `find` and slicing: a missing tag is found at
      -1, a negative slice end counts from the end of the text, and a slice
      that ends before it starts is empty. */
  function ExtractSection(s: string, open: string, close: string): (r: string)
    ensures Trimmed(r) && |r| <= |s|
  {
    StrippedSlice(s, Find(s, open) + |open|, Find(s, close))
  }

  /** `s[start:end].strip()`. */
  function StrippedSlice(s: string, start: int, end: int): (r: string)
    ensures Trimmed(r) && |r| <= |s|
  {
    Strip(PySlice(s, start, end))
  }

  /** The three sections of a non-streamed suggestion. */
  function ExtractSections(s: string): (r: Suggestion)
    ensures Trimmed(r.issues) && Trimmed(r.findings) && Trimmed(r.report)
    ensures |r.issues| <= |s| && |r.findings| <= |s| && |r.report| <= |s|
  {
    Suggestion(ExtractSection(s, OpenTag(IssuesTag), CloseTag(IssuesTag)),
               ExtractSection(s, OpenTag(FindingsTag), CloseTag(FindingsTag)),
               ExtractSection(s, OpenTag(ReportTag), CloseTag(ReportTag)))
  }

  /** The section is the stripped slice from the end of the first opening
      tag to the first closing tag. */
  lemma SectionIsSlice(s: string, open: string, close: string)
    ensures ExtractSection(s, open, close) == StrippedSlice(s, Find(s, open) + |open|, Find(s, close))
  {
  }

  /** With the end of the first opening tag at `a` and the first closing tag
      at `b`, the section is the text between them, stripped. */
  lemma SectionAt(s: string, open: string, close: string, a: int, b: int, mid: string)
    requires Find(s, open) + |open| == a && Find(s, close) == b
    requires 0 <= a <= b <= |s| && s[a..b] == mid
    ensures ExtractSection(s, open, close) == Strip(mid)
  {
    SectionIsSlice(s, open, close);
    SliceWithin(s, a, b, mid);
  }

  /** A slice whose bounds lie inside the text is the plain slice, so the
      section taken between them is that text, stripped. */
  lemma SliceWithin(s: string, start: int, end: int, mid: string)
    requires 0 <= start <= end <= |s| && s[start..end] == mid
    ensures StrippedSlice(s, start, end) == Strip(mid)
  {
    assert PySlice(s, start, end) == mid;
  }

  /** The tags of `pre + open + mid + close + post` are first found where
      they are first found in the text up to the end of each. */
  lemma TagsIn(pre: string, mid: string, post: string, open: string, close: string)
    requires Find(pre + open, open) == |pre|
    requires Find(pre + open + mid + close, close) == |pre| + |open| + |mid|
    ensures Find(pre + open + mid + close + post, open) == |pre|
    ensures Find(pre + open + mid + close + post, close) == |pre| + |open| + |mid|
  {
    var a := pre + open;
    assert pre + open + mid + close + post == a + (mid + close + post);
    FindExtends(a, mid + close + post, open);
    FindExtends(pre + open + mid + close, post, close);
  }

  lemma MiddleOf(pre: string, mid: string, post: string, open: string, close: string)
    ensures (pre + open + mid + close + post)[|pre| + |open|..|pre| + |open| + |mid|] == mid
  {
  }

  /** When the first opening tag is followed, after its end, by the first
      closing tag, the section is exactly the text strictly between them,
      stripped. */
  lemma ExtractBetween(pre: string, mid: string, post: string, open: string, close: string)
    requires Find(pre + open, open) == |pre|
    requires Find(pre + open + mid + close, close) == |pre| + |open| + |mid|
    ensures ExtractSection(pre + open + mid + close + post, open, close) == Strip(mid)
  {
    var s := pre + open + mid + close + post;
    var a, b := |pre| + |open|, |pre| + |open| + |mid|;
    assert Find(s, open) + |open| == a && Find(s, close) == b by {
      TagsIn(pre, mid, post, open, close);
    }
    assert s[a..b] == mid by {
      MiddleOf(pre, mid, post, open, close);
    }
    SectionAt(s, open, close, a, b, mid);
  }

  /** Without a closing tag the slice ends at -1, so the section runs from
      the end of the opening tag up to, but not including, the last
      character of the text. */
  lemma ExtractMissingClose(s: string, open: string, close: string)
    requires Find(s, close) == -1
    requires Find(s, open) != -1
    ensures var start := Find(s, open) + |open|;
      ExtractSection(s, open, close) == if start < |s| then Strip(s[start..|s| - 1]) else ""
  {
    SectionIsSlice(s, open, close);
    SliceToLast(s, Find(s, open) + |open|);
  }

  /** Without an opening tag its `find` gives -1, so the section starts at
      index `|open tag| - 1` and not at the beginning of the text. */
  lemma ExtractMissingOpen(s: string, open: string, close: string)
    requires Find(s, open) == -1
    requires Find(s, close) != -1
    ensures var end := Find(s, close); var start := |open| - 1;
      ExtractSection(s, open, close) == if start <= end then Strip(s[start..end]) else ""
  {
    assert OccursAt(s, "", 0);
    SectionIsSlice(s, open, close);
    SliceFrom(s, |open| - 1, Find(s, close));
  }

  /** A closing tag that comes before the end of the opening tag gives an
      empty section. */
  lemma ExtractCloseFirst(s: string, open: string, close: string)
    requires Find(s, open) != -1 && Find(s, close) != -1
    requires Find(s, close) <= Find(s, open) + |open|
    ensures ExtractSection(s, open, close) == ""
  {
    SectionIsSlice(s, open, close);
    SliceFrom(s, Find(s, open) + |open|, Find(s, close));
  }

  /** `s[start:end].strip()` for a start that is not negative and an end
      within the text. */
  lemma SliceFrom(s: string, start: int, end: int)
    requires 0 <= start && 0 <= end <= |s|
    ensures StrippedSlice(s, start, end) == if start <= end then Strip(s[start..end]) else ""
  {
    if start <= end {
      SliceWithin(s, start, end, s[start..end]);
    } else {
      assert PySlice(s, start, end) == [];
    }
  }

  /** `s[start:-1].strip()` for a start that is not negative. */
  lemma SliceToLast(s: string, start: int)
    requires 0 <= start
    ensures StrippedSlice(s, start, -1) == if start < |s| then Strip(s[start..|s| - 1]) else ""
  {
    if start < |s| {
      assert PyIndex(-1, |s|) == |s| - 1;
      assert PySlice(s, start, -1) == s[start..|s| - 1];
    } else {
      assert PySlice(s, start, -1) == [];
    }
  }
}
