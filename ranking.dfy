/** Ranking of past findings against a query (`build_tfidf_index`'s document
    text and `search_candidates`). The lexical similarity of the query to
    each finding comes from a TF-IDF vectoriser and is an input here: one
    number per row, in row order. Each row's score blends that similarity
    (weight 0.65), its severity divided by 5 (weight 0.25) and its min-max
    normalised year (weight 0.10); the rows are sorted by score, highest
    first, and the first `topK` are returned. */
module Ranking {
  import opened Wrappers
  import opened Text
  import opened Findings

  /** The text indexed for one finding: title, detail, cause detail and
      recommendation, each null read as "", separated by single spaces. */
  function DocumentText(r: Finding): (text: string)
    ensures var title, recommendation := r.issueTitle.GetOr(""), r.recommendation.GetOr("");
      |title| + |recommendation| + 3 <= |text|
      && text[..|title|] == title && text[|text| - |recommendation|..] == recommendation
  {
    r.issueTitle.GetOr("") + " " + r.issueDetail.GetOr("") + " "
      + r.causeDetail.GetOr("") + " " + r.recommendation.GetOr("")
  }

  /** The four fields a document text is made of, in order. */
  function DocumentFields(r: Finding): seq<string> {
    [r.issueTitle.GetOr(""), r.issueDetail.GetOr(""), r.causeDetail.GetOr(""), r.recommendation.GetOr("")]
  }

  /** Four strings joined by a separator are the strings with the separator
      between each neighbouring pair. */
  lemma JoinFour(a: string, b: string, c: string, d: string, sep: string)
    ensures JoinWith([a, b, c, d], sep) == a + sep + b + sep + c + sep + d
  {
    var f := [a, b, c, d];
    assert f[1..] == [b, c, d];
    assert f[1..][1..] == [c, d];
    assert f[1..][1..][1..] == [d];
    assert JoinWith([c, d], sep) == c + sep + d;
    assert JoinWith([b, c, d], sep) == b + sep + (c + sep + d);
  }

  /** The document text is the four fields joined by one space each, so it is
      three characters longer than they are together. */
  lemma DocumentTextJoinsFields(r: Finding)
    ensures DocumentText(r) == JoinWith(DocumentFields(r), " ")
    ensures var f := DocumentFields(r); |DocumentText(r)| == |f[0]| + |f[1]| + |f[2]| + |f[3]| + 3
  {
    var f := DocumentFields(r);
    JoinFour(f[0], f[1], f[2], f[3], " ");
  }

  /** Splitting the document text at spaces gives the four fields back when
      none of them holds a space. */
  lemma DocumentTextSplits(r: Finding)
    requires forall k :: 0 <= k < 4 ==> ' ' !in DocumentFields(r)[k]
    ensures SplitOn(DocumentText(r), " ") == DocumentFields(r)
  {
    DocumentTextJoinsFields(r);
    SplitJoinChar(DocumentFields(r), ' ');
  }

  /** The document texts of the whole table, in row order. A column of the
      four that the table lacks makes the source fail with a missing-column
      error, reported here with the first such column. */
  function DocumentTexts(t: Table): (r: Result<seq<string>, Column>)
    ensures r.Failure? <==> !({IssueTitle, IssueDetail, CauseDetail, Recommendation} <= t.columns)
    ensures r.Failure? ==> r.error in {IssueTitle, IssueDetail, CauseDetail, Recommendation} - t.columns
    ensures r.Success? ==> (|r.value| == |t.rows|
      && forall i :: 0 <= i < |t.rows| ==> r.value[i] == DocumentText(t.rows[i]))
  {
    if IssueTitle !in t.columns then Failure(IssueTitle)
    else if IssueDetail !in t.columns then Failure(IssueDetail)
    else if CauseDetail !in t.columns then Failure(CauseDetail)
    else if Recommendation !in t.columns then Failure(Recommendation)
    else Success(seq(|t.rows|, i requires 0 <= i < |t.rows| => DocumentText(t.rows[i])))
  }

  /** The years of a cleaned table that has a year column, in row order. */
  function Years(t: Table): (ys: seq<int>)
    requires Cleaned(t) && Year in t.columns
    ensures |ys| == |t.rows|
    ensures forall i :: 0 <= i < |t.rows| ==> t.rows[i].year == Some(ys[i])
  {
    seq(|t.rows|, i requires 0 <= i < |t.rows| => t.rows[i].year.value)
  }

  /** The years are spread: the table has a year column and not all of its
      years are equal. */
  predicate YearsSpread(t: Table)
    requires Cleaned(t)
  {
    Year in t.columns && |t.rows| > 0 && MaxOf(Years(t)) != MinOf(Years(t))
  }

  /** `y` placed linearly on the range from `lo` to `hi`. */
  function Scale(y: int, lo: int, hi: int): real
    requires lo < hi
  {
    (y - lo) as real / (hi - lo) as real
  }

  /** Scaling sends `lo` to 0 and `hi` to 1, maps the range into [0, 1] and
      keeps order. */
  lemma ScaleProperties(x: int, y: int, lo: int, hi: int)
    requires lo <= x <= y <= hi && lo < hi
    ensures 0.0 <= Scale(x, lo, hi) <= Scale(y, lo, hi) <= 1.0
    ensures Scale(lo, lo, hi) == 0.0 && Scale(hi, lo, hi) == 1.0
  {
    FractionBounds(x - lo, y - lo, hi - lo);
    var d := (hi - lo) as real;
    assert d / d == 1.0;
  }

  /** Min-max scaling of a list of numbers that are not all equal. */
  function Normalize(ys: seq<int>): (yn: seq<real>)
    requires |ys| > 0 && MaxOf(ys) != MinOf(ys)
    ensures |yn| == |ys|
  {
    var lo, hi := MinOf(ys), MaxOf(ys);
    seq(|ys|, i requires 0 <= i < |ys| => Scale(ys[i], lo, hi))
  }

  /** `year_norm`: each year scaled linearly so that the earliest is 0 and
      the latest 1, or 0 everywhere when the years are not spread. */
  function YearNorms(t: Table): (yn: seq<real>)
    requires Cleaned(t)
    ensures |yn| == |t.rows|
  {
    if YearsSpread(t) then Normalize(Years(t)) else seq(|t.rows|, i => 0.0)
  }

  /** A fraction whose numerator lies between 0 and its positive denominator
      lies between 0 and 1, and grows with the numerator. */
  lemma FractionBounds(a: int, b: int, d: int)
    requires 0 <= a <= b <= d && d > 0
    ensures 0.0 <= a as real / d as real <= b as real / d as real <= 1.0
  {
    var x, y, z := a as real, b as real, d as real;
    assert x / z * z == x;
    assert y / z * z == y;
  }

  /** One min-max scaled value. */
  lemma NormalizeAt(ys: seq<int>, i: nat)
    requires |ys| > 0 && MaxOf(ys) != MinOf(ys) && i < |ys|
    ensures MinOf(ys) <= ys[i] <= MaxOf(ys)
    ensures Normalize(ys)[i] == Scale(ys[i], MinOf(ys), MaxOf(ys))
  {
    assert ys[i] in ys;
  }

  /** Min-max scaling keeps the order of the numbers and maps into [0, 1]. */
  lemma NormalizeMonotone(ys: seq<int>, i: nat, j: nat)
    requires |ys| > 0 && MaxOf(ys) != MinOf(ys) && i < |ys| && j < |ys| && ys[i] <= ys[j]
    ensures 0.0 <= Normalize(ys)[i] <= Normalize(ys)[j] <= 1.0
  {
    NormalizeAt(ys, i);
    NormalizeAt(ys, j);
    ScaleProperties(ys[i], ys[j], MinOf(ys), MaxOf(ys));
  }

  /** Min-max scaling maps into [0, 1], sends the minimum to 0 and the
      maximum to 1, and keeps the order of the numbers. */
  lemma NormalizeProperties(ys: seq<int>)
    requires |ys| > 0 && MaxOf(ys) != MinOf(ys)
    ensures var yn := Normalize(ys);
      (forall i :: 0 <= i < |ys| && ys[i] == MinOf(ys) ==> yn[i] == 0.0)
      && (forall i :: 0 <= i < |ys| && ys[i] == MaxOf(ys) ==> yn[i] == 1.0)
      && (forall i, j :: 0 <= i < |ys| && 0 <= j < |ys| && ys[i] <= ys[j] ==> 0.0 <= yn[i] <= yn[j] <= 1.0)
  {
    var yn := Normalize(ys);
    forall i, j | 0 <= i < |ys| && 0 <= j < |ys| && ys[i] <= ys[j]
      ensures 0.0 <= yn[i] <= yn[j] <= 1.0
    {
      NormalizeMonotone(ys, i, j);
    }
    forall i | 0 <= i < |ys| && (ys[i] == MinOf(ys) || ys[i] == MaxOf(ys))
      ensures ys[i] == MinOf(ys) ==> yn[i] == 0.0
      ensures ys[i] == MaxOf(ys) ==> yn[i] == 1.0
    {
      NormalizeAt(ys, i);
      ScaleProperties(ys[i], ys[i], MinOf(ys), MaxOf(ys));
    }
  }

  /** Every normalised year lies in [0, 1]; without a year column, or when all
      years are equal, every one of them is exactly 0; otherwise the earliest
      year maps to 0, the latest to 1, and later years never map lower. */
  lemma YearNormsProperties(t: Table)
    requires Cleaned(t)
    ensures var yn := YearNorms(t);
      (forall i :: 0 <= i < |yn| ==> 0.0 <= yn[i] <= 1.0)
      && (!YearsSpread(t) ==> forall i :: 0 <= i < |yn| ==> yn[i] == 0.0)
      && (YearsSpread(t) ==>
            (forall i :: 0 <= i < |yn| && Years(t)[i] == MinOf(Years(t)) ==> yn[i] == 0.0)
            && (forall i :: 0 <= i < |yn| && Years(t)[i] == MaxOf(Years(t)) ==> yn[i] == 1.0)
            && (forall i, j :: 0 <= i < |yn| && 0 <= j < |yn| && Years(t)[i] <= Years(t)[j] ==> yn[i] <= yn[j]))
  {
    if YearsSpread(t) {
      var ys := Years(t);
      NormalizeProperties(ys);
      forall i | 0 <= i < |ys| ensures 0.0 <= Normalize(ys)[i] <= 1.0 {
        assert ys[i] <= ys[i];
      }
    }
  }

  /** `sev_norm`: the severity divided by 5, or 3/5 without a severity
      column. */
  function SevNorm(t: Table, r: Finding): (s: real)
    requires Severity in t.columns ==> r.severity.Some?
    ensures Severity !in t.columns ==> s == 0.6
    ensures Severity in t.columns && 1 <= r.severity.value <= 5 ==> 0.2 <= s <= 1.0
  {
    if Severity in t.columns then r.severity.value as real / 5.0 else 3.0 / 5.0
  }

  /** The composite score `score`: 0.65 of the similarity, 0.25 of
      `sev_norm` and 0.10 of `year_norm`. */
  function Blend(sim: real, sevNorm: real, yearNorm: real): real {
    sim * 0.65 + sevNorm * 0.25 + yearNorm * 0.10
  }

  /** A row of the ranking: the finding, its similarity to the query and its
      composite score. */
  datatype Candidate = Candidate(finding: Finding, simScore: real, score: real)

  /** Every row of the table, scored against its similarity. */
  function Candidates(t: Table, sims: seq<real>): (cs: seq<Candidate>)
    requires Cleaned(t) && |sims| == |t.rows|
    ensures |cs| == |t.rows|
    ensures forall i :: 0 <= i < |cs| ==> cs[i].finding == t.rows[i] && cs[i].simScore == sims[i]
  {
    var yn := YearNorms(t);
    seq(|t.rows|, i requires 0 <= i < |t.rows| =>
      Candidate(t.rows[i], sims[i], Blend(sims[i], SevNorm(t, t.rows[i]), yn[i])))
  }

  /** With similarities in [0, 1], every score lies in [0.05, 1]: the weights
      sum to 1 and a cleaned severity is at least 1. */
  lemma ScoreBounds(t: Table, sims: seq<real>)
    requires Cleaned(t) && |sims| == |t.rows|
    requires forall i :: 0 <= i < |sims| ==> 0.0 <= sims[i] <= 1.0
    ensures forall c :: c in Candidates(t, sims) ==> 0.05 <= c.score <= 1.0
  {
    var cs := Candidates(t, sims);
    YearNormsProperties(t);
    forall c | c in cs ensures 0.05 <= c.score <= 1.0 {
      var i :| 0 <= i < |cs| && cs[i] == c;
      assert Severity in t.columns ==> 1 <= t.rows[i].severity.value <= 5;
    }
  }

  /** Non-increasing scores. */
  predicate SortedByScore(cs: seq<Candidate>) {
    forall i, j :: 0 <= i < j < |cs| ==> cs[i].score >= cs[j].score
  }

  /** A score-sorted list stays sorted with a head that scores at least as
      high as all of it. */
  lemma ConsSorted(h: Candidate, cs: seq<Candidate>)
    requires SortedByScore(cs)
    requires forall j :: 0 <= j < |cs| ==> cs[j].score <= h.score
    ensures SortedByScore([h] + cs)
  {
    var r := [h] + cs;
    forall i, j | 0 <= i < j < |r| ensures r[i].score >= r[j].score {
      assert r[j] == cs[j - 1];
      if i > 0 { assert r[i] == cs[i - 1]; }
    }
  }

  /** Everything in a permutation of the tail of a sorted list, plus an
      element scoring below its head, scores at most as high as the head. */
  lemma BoundedByHead(c: Candidate, cs: seq<Candidate>, rest: seq<Candidate>)
    requires SortedByScore(cs) && |cs| > 0 && c.score < cs[0].score
    requires multiset(rest) == multiset(cs[1..]) + multiset{c}
    ensures forall j :: 0 <= j < |rest| ==> rest[j].score <= cs[0].score
  {
    forall j | 0 <= j < |rest| ensures rest[j].score <= cs[0].score {
      assert rest[j] in multiset(rest);
      if rest[j] != c {
        assert rest[j] in multiset(cs[1..]);
        var k :| 0 <= k < |cs[1..]| && cs[1..][k] == rest[j];
        assert cs[k + 1] == rest[j];
      }
    }
  }

  /** `c` placed into a score-sorted list. */
  function InsertByScore(c: Candidate, cs: seq<Candidate>): (r: seq<Candidate>)
    requires SortedByScore(cs)
    ensures SortedByScore(r) && multiset(r) == multiset(cs) + multiset{c}
  {
    if cs == [] || c.score >= cs[0].score then
      ConsSorted(c, cs);
      [c] + cs
    else
      var rest := InsertByScore(c, cs[1..]);
      assert cs == [cs[0]] + cs[1..];
      BoundedByHead(c, cs, rest);
      ConsSorted(cs[0], rest);
      [cs[0]] + rest
  }

  /** The candidates ordered by score, highest first. Rows with equal scores
      may come in any order: the source's sort is not stable. */
  function SortByScore(cs: seq<Candidate>): (r: seq<Candidate>)
    ensures SortedByScore(r) && multiset(r) == multiset(cs)
  {
    if cs == [] then []
    else
      assert cs == [cs[0]] + cs[1..];
      InsertByScore(cs[0], SortByScore(cs[1..]))
  }

  function Min(a: int, b: int): int {
    if a < b then a else b
  }

  /** The number of candidates `search_candidates` returns when the caller
      does not say. */
  const DefaultTopK := 8

  /** `search_candidates(query, df, vec, X, top_k)` with the similarities
      given: the `topK` best-scored rows, best first. */
  function SearchCandidates(t: Table, sims: seq<real>, topK: nat): (r: seq<Candidate>)
    requires Cleaned(t) && |sims| == |t.rows|
    ensures |r| == Min(topK, |t.rows|)
    ensures forall c :: c in r ==> c in Candidates(t, sims)
  {
    var cs := Candidates(t, sims);
    var sorted := SortByScore(cs);
    assert |sorted| == |multiset(sorted)| == |multiset(cs)| == |t.rows|;
    var r := sorted[..Min(topK, |sorted|)];
    assert forall c :: c in r ==> c in multiset(sorted);
    r
  }

  /** The first `k` elements of a score-sorted list score at least as high
      as every element left out. */
  lemma {:induction false} PrefixOfSorted(sorted: seq<Candidate>, k: nat)
    requires SortedByScore(sorted) && k <= |sorted|
    ensures var r := sorted[..k];
      SortedByScore(r) && multiset(r) <= multiset(sorted)
      && forall x, y :: x in r && y in multiset(sorted) - multiset(r) ==> x.score >= y.score
  {
    var r, rest := sorted[..k], sorted[k..];
    assert sorted == r + rest;
    assert multiset(sorted) == multiset(r) + multiset(rest);
    assert multiset(sorted) - multiset(r) == multiset(rest);
    forall x, y | x in r && y in multiset(rest) ensures x.score >= y.score {
      PrefixAbove(sorted, k, x, y);
    }
  }

  /** An element of the first `k` scores at least as high as one after. */
  lemma PrefixAbove(sorted: seq<Candidate>, k: nat, x: Candidate, y: Candidate)
    requires SortedByScore(sorted) && k <= |sorted|
    requires x in sorted[..k] && y in sorted[k..]
    ensures x.score >= y.score
  {
    var i :| 0 <= i < k && sorted[..k][i] == x;
    var j :| 0 <= j < |sorted| - k && sorted[k..][j] == y;
    assert sorted[i] == x && sorted[k + j] == y;
  }

  /** The result has `min(topK, n)` rows in non-increasing score order, all
      of them scored rows of the table, and no row left out scores higher
      than a row kept. */
  lemma SearchCandidatesIsTopK(t: Table, sims: seq<real>, topK: nat)
    requires Cleaned(t) && |sims| == |t.rows|
    ensures var r := SearchCandidates(t, sims, topK); var all := multiset(Candidates(t, sims));
      |r| == Min(topK, |t.rows|)
      && SortedByScore(r)
      && multiset(r) <= all
      && forall x, y :: x in r && y in all - multiset(r) ==> x.score >= y.score
  {
    var sorted := SortByScore(Candidates(t, sims));
    assert |sorted| == |multiset(sorted)| == |t.rows|;
    PrefixOfSorted(sorted, Min(topK, |sorted|));
  }

  /** Two candidates already in score order stay in that order. */
  lemma SortTwo(a: Candidate, b: Candidate)
    requires a.score >= b.score
    ensures SortByScore([a, b]) == [a, b]
  {
    assert [a, b][1..] == [b];
    assert [b][1..] == [];
  }

  /** An example ranking: a severity-5 finding from 2023 that matches the
      query at least as well as a severity-2 finding from 2020 is ranked
      first, and both are returned under the default `top_k`. */
  lemma ExampleRanking(t: Table, sims: seq<real>)
    requires Cleaned(t) && |t.rows| == 2 && |sims| == 2
    requires Year in t.columns && Severity in t.columns
    requires t.rows[0].severity == Some(5) && t.rows[0].year == Some(2023)
    requires t.rows[1].severity == Some(2) && t.rows[1].year == Some(2020)
    requires sims[0] >= sims[1]
    ensures var r := SearchCandidates(t, sims, DefaultTopK);
      |r| == 2 && r[0].finding == t.rows[0] && r[1].finding == t.rows[1]
  {
    var ys := Years(t);
    assert ys == [2023, 2020];
    assert MinOf(ys) == 2020 && MaxOf(ys) == 2023;
    NormalizeAt(ys, 0);
    NormalizeAt(ys, 1);
    ScaleProperties(2020, 2023, 2020, 2023);
    var yn := YearNorms(t);
    assert yn[0] == 1.0 && yn[1] == 0.0;
    var cs := Candidates(t, sims);
    assert cs[0].score > cs[1].score;
    assert cs == [cs[0], cs[1]];
    SortTwo(cs[0], cs[1]);
  }
}
