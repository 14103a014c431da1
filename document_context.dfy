/** The chat assistant's document context: the texts of the documents
    (already extracted from their files) are gathered under a character
    budget, the local and uploaded contexts are combined with a fallback,
    and the messages sent to the model carry only the recent history. */
module DocumentContext {
  import opened Text

  /** The assistant's budget of document characters. */
  const MaxCharsLimit := 100000

  /** A document as extracted from its file: its name and its text. A file
      that could not be read has an empty text. */
  datatype Document = Document(name: string, text: string)

  const StartLabel := "\n--- Start of Document: "
  const EndLabel := "\n--- End of Document: "
  const Closing := " ---\n"
  const TruncatedClosing := " (TRUNCATED) ---\n"
  const NoteLabel := "\n... [ข้อความถูกตัดทอนจาก "
  function StartHeader(name: string): string {
    StartLabel + name + Closing
  }

  function EndFooter(name: string): string {
    EndLabel + name + Closing
  }

  function TruncatedHeader(name: string): string {
    StartLabel + name + TruncatedClosing
  }

  function TruncationNote(name: string): string {
    NoteLabel + name + "]"
  }

  /** A document included whole: header, full text, footer. */
  function FullBlock(d: Document): string {
    StartHeader(d.name) + d.text + EndFooter(d.name)
  }

  /** The first `n` characters of a document that does not fit, between the
      truncated header and the truncation note. */
  function TruncatedBlock(d: Document, n: nat): string
    requires n <= |d.text|
  {
    TruncatedHeader(d.name) + d.text[..n] + TruncationNote(d.name)
  }

  /** The context gathered so far and the running character count. */
  datatype Accumulated = Accumulated(context: string, total: int)

  /** What gathering `docs` produces when `total` characters are already
      counted against `limit`: empty texts are skipped; a text that fits is
      included whole and counted; the first text that does not fit
      contributes its first `limit - total` characters (when that is
      positive), is not counted, and ends the gathering. */
  function Accumulate(docs: seq<Document>, limit: int, total: int): (r: Accumulated)
    ensures total <= r.total
    ensures total <= limit ==> r.total <= limit
    decreases |docs|
  {
    if docs == [] then Accumulated("", total)
    else
      var d := docs[0];
      if d.text == "" then Accumulate(docs[1..], limit, total)
      else if total + |d.text| > limit then
        var remaining := limit - total;
        Accumulated(if remaining > 0 then TruncatedBlock(d, remaining) else "", total)
      else
        var rest := Accumulate(docs[1..], limit, total + |d.text|);
        Accumulated(FullBlock(d) + rest.context, rest.total)
  }

  /** Gathering from document `i` on, when document `i` has an empty text. */
  lemma AccumulateSkips(docs: seq<Document>, i: nat, limit: int, total: int)
    requires i < |docs| && docs[i].text == ""
    ensures Accumulate(docs[i..], limit, total) == Accumulate(docs[i + 1..], limit, total)
  {
    assert docs[i..][1..] == docs[i + 1..];
  }

  /** One step of the gathering when document `i` does not fit: what is
      appended to the context `c` gathered so far completes it. */
  lemma StopStep(c: string, docs: seq<Document>, i: nat, limit: int, total: int)
    requires i < |docs| && docs[i].text != "" && total + |docs[i].text| > limit
    ensures Accumulate(docs[i..], limit, total).total == total
    ensures (if limit - total > 0
             then c + TruncatedHeader(docs[i].name) + docs[i].text[..limit - total] + TruncationNote(docs[i].name)
             else c)
         == c + Accumulate(docs[i..], limit, total).context
  {
    assert docs[i..][0] == docs[i];
  }

  /** One step of the gathering when document `i` fits: its block appended
      to the context `c` leaves the gathering of the documents after it. */
  lemma IncludeStep(c: string, docs: seq<Document>, i: nat, limit: int, total: int)
    requires i < |docs| && docs[i].text != "" && total + |docs[i].text| <= limit
    ensures Accumulate(docs[i..], limit, total).total
         == Accumulate(docs[i + 1..], limit, total + |docs[i].text|).total
    ensures c + StartHeader(docs[i].name) + docs[i].text + EndFooter(docs[i].name)
              + Accumulate(docs[i + 1..], limit, total + |docs[i].text|).context
         == c + Accumulate(docs[i..], limit, total).context
  {
    assert docs[i..][0] == docs[i] && docs[i..][1..] == docs[i + 1..];
  }

  /** `process_documents`: the context built from the documents, and how
      many characters of fully included texts it added to the count. */
  method ProcessDocuments(docs: seq<Document>, limit: int, existing: int) returns (context: string, added: int)
    ensures context == Accumulate(docs, limit, existing).context
    ensures added == Accumulate(docs, limit, existing).total - existing
  {
    context := "";
    var total := existing;
    var i := 0;
    ghost var goal := Accumulate(docs, limit, existing);
    assert docs[0..] == docs;
    while i < |docs|
      invariant 0 <= i <= |docs|
      invariant context + Accumulate(docs[i..], limit, total).context == goal.context
      invariant Accumulate(docs[i..], limit, total).total == goal.total
    {
      var d := docs[i];
      if d.text == "" {
        AccumulateSkips(docs, i, limit, total);
      } else if total + |d.text| > limit {
        StopStep(context, docs, i, limit, total);
        var remaining := limit - total;
        if remaining > 0 {
          context := context + TruncatedHeader(d.name);
          context := context + d.text[..remaining] + TruncationNote(d.name);
        }
        assert context == goal.context && total == goal.total;
        break;
      } else {
        IncludeStep(context, docs, i, limit, total);
        context := context + StartHeader(d.name);
        context := context + d.text;
        context := context + EndFooter(d.name);
        total := total + |d.text|;
      }
      i := i + 1;
    }
    if i == |docs| {
      assert docs[i..] == [];
    }
    added := total - existing;
  }

  // ---------------------------------------------------------------------
  // What the gathering amounts to
  // ---------------------------------------------------------------------

  /** The documents with a non-empty text, in order. */
  function NonEmpty(docs: seq<Document>): (ne: seq<Document>)
    ensures |ne| <= |docs|
  {
    if docs == [] then []
    else if docs[0].text == "" then NonEmpty(docs[1..])
    else [docs[0]] + NonEmpty(docs[1..])
  }

  /** The total length of the texts. */
  function SumLengths(docs: seq<Document>): nat {
    if docs == [] then 0 else |docs[0].text| + SumLengths(docs[1..])
  }

  /** The documents included whole, one after the other. */
  function Blocks(docs: seq<Document>): string {
    if docs == [] then "" else FullBlock(docs[0]) + Blocks(docs[1..])
  }

  /** The truncated block of document `n` of `ne`, when there is one and
      part of its text fits the budget left after `used` characters. */
  function TailBlock(ne: seq<Document>, n: nat, limit: int, used: int): string
    requires n <= |ne|
  {
    if n < |ne| && 0 < limit - used < |ne[n].text| then TruncatedBlock(ne[n], limit - used) else ""
  }

  /** How many non-empty documents the gathering includes whole. */
  function IncludedCount(docs: seq<Document>, limit: int, total: int): (n: nat)
    ensures n <= |NonEmpty(docs)|
    decreases |docs|
  {
    if docs == [] then 0
    else if docs[0].text == "" then IncludedCount(docs[1..], limit, total)
    else if total + |docs[0].text| > limit then 0
    else 1 + IncludedCount(docs[1..], limit, total + |docs[0].text|)
  }

  lemma PrefixCons(d: Document, ds: seq<Document>, n: nat)
    requires n <= |ds|
    ensures ([d] + ds)[..n + 1] == [d] + ds[..n]
    ensures ([d] + ds)[n + 1..] == ds[n..]
  {
  }

  /** Length and blocks of a run that starts with one more document. */
  lemma ConsPrefix(d: Document, ds: seq<Document>, n: nat)
    requires n <= |ds|
    ensures SumLengths(([d] + ds)[..n + 1]) == |d.text| + SumLengths(ds[..n])
    ensures Blocks(([d] + ds)[..n + 1]) == FullBlock(d) + Blocks(ds[..n])
  {
    PrefixCons(d, ds, n);
    assert ([d] + ds)[..n + 1][1..] == ds[..n];
  }

  lemma NonEmptyCons(docs: seq<Document>)
    requires docs != [] && docs[0].text != ""
    ensures NonEmpty(docs) == [docs[0]] + NonEmpty(docs[1..])
  {
  }

  lemma BlocksCons(d: Document, ne': seq<Document>, n': nat, tail: string, ne: seq<Document>)
    requires ne == [d] + ne' && n' <= |ne'|
    ensures FullBlock(d) + (Blocks(ne'[..n']) + tail) == Blocks(ne[..n' + 1]) + tail
  {
    ConsPrefix(d, ne', n');
  }

  /** The count is the existing count plus the lengths of the documents
      included whole. */
  lemma {:induction false} TotalCounts(docs: seq<Document>, limit: int, existing: int)
    ensures Accumulate(docs, limit, existing).total
      == existing + SumLengths(NonEmpty(docs)[..IncludedCount(docs, limit, existing)])
    decreases |docs|
  {
    if docs == [] {
    } else if docs[0].text == "" {
      TotalCounts(docs[1..], limit, existing);
    } else if existing + |docs[0].text| > limit {
    } else {
      var e' := existing + |docs[0].text|;
      var ne, ne' := NonEmpty(docs), NonEmpty(docs[1..]);
      var n' := IncludedCount(docs[1..], limit, e');
      assert Accumulate(docs[1..], limit, e').total == e' + SumLengths(ne'[..n']) by {
        TotalCounts(docs[1..], limit, e');
      }
      assert IncludedCount(docs, limit, existing) == n' + 1
          && existing + SumLengths(ne[..n' + 1]) == e' + SumLengths(ne'[..n']) by {
        FitShifts(docs, limit, existing, ne, ne', n');
      }
    }
  }

  /** The documents included whole fit the budget (unless there are none),
      and the next non-empty document, if any, does not. */
  lemma {:induction false} LongestFittingRun(docs: seq<Document>, limit: int, existing: int)
    ensures var ne, n := NonEmpty(docs), IncludedCount(docs, limit, existing);
      var used := existing + SumLengths(ne[..n]);
      (n == 0 || used <= limit) && (n == |ne| || used + |ne[n].text| > limit)
    decreases |docs|
  {
    if docs == [] {
    } else if docs[0].text == "" {
      LongestFittingRun(docs[1..], limit, existing);
      assert NonEmpty(docs) == NonEmpty(docs[1..]);
    } else if existing + |docs[0].text| > limit {
      NonEmptyCons(docs);
    } else {
      var e' := existing + |docs[0].text|;
      var ne, ne' := NonEmpty(docs), NonEmpty(docs[1..]);
      var n' := IncludedCount(docs[1..], limit, e');
      var used := e' + SumLengths(ne'[..n']);
      assert (n' == 0 || used <= limit) && (n' == |ne'| || used + |ne'[n'].text| > limit) by {
        LongestFittingRun(docs[1..], limit, e');
      }
      assert IncludedCount(docs, limit, existing) == n' + 1 && existing + SumLengths(ne[..n' + 1]) == used
          && |ne| == |ne'| + 1 && (n' < |ne'| ==> ne[n' + 1] == ne'[n']) by {
        FitShifts(docs, limit, existing, ne, ne', n');
      }
    }
  }

  /** The context the gathering amounts to: the documents included whole,
      in their headers and footers, followed by the truncated start of the
      next non-empty document when part of it fits. */
  function GatheredContext(docs: seq<Document>, limit: int, existing: int): string {
    var ne, n := NonEmpty(docs), IncludedCount(docs, limit, existing);
    Blocks(ne[..n]) + TailBlock(ne, n, limit, existing + SumLengths(ne[..n]))
  }

  lemma GatheredSkipsEmpty(docs: seq<Document>, limit: int, existing: int)
    requires docs != [] && docs[0].text == ""
    ensures GatheredContext(docs, limit, existing) == GatheredContext(docs[1..], limit, existing)
  {
    assert NonEmpty(docs) == NonEmpty(docs[1..]);
    assert IncludedCount(docs, limit, existing) == IncludedCount(docs[1..], limit, existing);
  }

  lemma GatheredAtOverflow(docs: seq<Document>, limit: int, existing: int)
    requires docs != [] && docs[0].text != "" && existing + |docs[0].text| > limit
    ensures GatheredContext(docs, limit, existing)
         == if limit - existing > 0 then TruncatedBlock(docs[0], limit - existing) else ""
  {
    NonEmptyCons(docs);
    var ne := NonEmpty(docs);
    assert ne[..0] == [];
    assert IncludedCount(docs, limit, existing) == 0;
    var tail := TailBlock(ne, 0, limit, existing);
    assert "" + tail == tail;
  }

  /** When the first document fits, the gathered context is its block
      followed by the context gathered from the documents after it. */
  lemma GatheredAfterFit(docs: seq<Document>, limit: int, existing: int)
    requires docs != [] && docs[0].text != "" && existing + |docs[0].text| <= limit
    ensures GatheredContext(docs, limit, existing)
         == FullBlock(docs[0]) + GatheredContext(docs[1..], limit, existing + |docs[0].text|)
  {
    var e' := existing + |docs[0].text|;
    var ne, ne' := NonEmpty(docs), NonEmpty(docs[1..]);
    var n' := IncludedCount(docs[1..], limit, e');
    var used := e' + SumLengths(ne'[..n']);
    assert n' + 1 <= |ne| by { FitShifts(docs, limit, existing, ne, ne', n'); }
    calc {
      GatheredContext(docs, limit, existing);
    == { FitShifts(docs, limit, existing, ne, ne', n');
         GatheredAt(docs, limit, existing, ne, n' + 1, used); }
      Blocks(ne[..n' + 1]) + TailBlock(ne, n' + 1, limit, used);
    == { FitShifts(docs, limit, existing, ne, ne', n');
         BlocksAfterFit(docs[0], ne', n', limit, used, ne); }
      FullBlock(docs[0]) + (Blocks(ne'[..n']) + TailBlock(ne', n', limit, used));
    == { GatheredAt(docs[1..], limit, e', ne', n', used); }
      FullBlock(docs[0]) + GatheredContext(docs[1..], limit, e');
    }
  }

  /** The gathered context, given the non-empty documents, how many are
      included and the characters counted. */
  lemma GatheredAt(docs: seq<Document>, limit: int, existing: int, ne: seq<Document>, n: nat, used: int)
    requires ne == NonEmpty(docs) && n == IncludedCount(docs, limit, existing)
    requires used == existing + SumLengths(ne[..n])
    ensures GatheredContext(docs, limit, existing) == Blocks(ne[..n]) + TailBlock(ne, n, limit, used)
  {
  }

  /** The blocks of the documents after a fitting one, preceded by its
      block, are the blocks of all of them. */
  lemma BlocksAfterFit(d: Document, ne': seq<Document>, n': nat, limit: int, used: int, ne: seq<Document>)
    requires ne == [d] + ne' && n' <= |ne'|
    ensures FullBlock(d) + (Blocks(ne'[..n']) + TailBlock(ne', n', limit, used))
         == Blocks(ne[..n' + 1]) + TailBlock(ne, n' + 1, limit, used)
  {
    var tail := TailBlock(ne', n', limit, used);
    assert TailBlock(ne, n' + 1, limit, used) == tail;
    BlocksCons(d, ne', n', tail, ne);
  }

  /** When the first document fits, the non-empty documents, the count of
      those included and the characters they use shift by that document. */
  lemma FitShifts(docs: seq<Document>, limit: int, existing: int, ne: seq<Document>, ne': seq<Document>, n': nat)
    requires docs != [] && docs[0].text != "" && existing + |docs[0].text| <= limit
    requires ne == NonEmpty(docs) && ne' == NonEmpty(docs[1..])
    requires n' == IncludedCount(docs[1..], limit, existing + |docs[0].text|)
    ensures ne == [docs[0]] + ne' && n' <= |ne'|
    ensures IncludedCount(docs, limit, existing) == n' + 1
    ensures existing + SumLengths(ne[..n' + 1]) == existing + |docs[0].text| + SumLengths(ne'[..n'])
    ensures |ne| == |ne'| + 1 && (n' < |ne'| ==> ne[n' + 1] == ne'[n'])
  {
    NonEmptyCons(docs);
    ConsPrefix(docs[0], ne', n');
  }

  /** The context built is the gathered context: the documents included
      whole, then the truncated start of the first one that does not fit. */
  lemma {:induction false} ContextBlocks(docs: seq<Document>, limit: int, existing: int)
    ensures Accumulate(docs, limit, existing).context == GatheredContext(docs, limit, existing)
    decreases |docs|
  {
    if docs == [] {
    } else if docs[0].text == "" {
      calc {
        Accumulate(docs, limit, existing).context;
      == { SkipsFirst(docs, limit, existing); }
        Accumulate(docs[1..], limit, existing).context;
      == { ContextBlocks(docs[1..], limit, existing); }
        GatheredContext(docs[1..], limit, existing);
      == { GatheredSkipsEmpty(docs, limit, existing); }
        GatheredContext(docs, limit, existing);
      }
    } else if existing + |docs[0].text| > limit {
      GatheredAtOverflow(docs, limit, existing);
    } else {
      var e' := existing + |docs[0].text|;
      calc {
        Accumulate(docs, limit, existing).context;
      == { IncludesFirst(docs, limit, existing); }
        FullBlock(docs[0]) + Accumulate(docs[1..], limit, e').context;
      == { ContextBlocks(docs[1..], limit, e'); }
        FullBlock(docs[0]) + GatheredContext(docs[1..], limit, e');
      == { GatheredAfterFit(docs, limit, existing); }
        GatheredContext(docs, limit, existing);
      }
    }
  }

  /** Only whole documents are counted: the characters added are the total
      length of the first few non-empty texts, and with a count that starts
      within the budget the count stays within it. */
  lemma AddedCountsWholeDocuments(docs: seq<Document>, limit: int, existing: int)
    ensures Accumulate(docs, limit, existing).total - existing
      == SumLengths(NonEmpty(docs)[..IncludedCount(docs, limit, existing)])
    ensures existing <= limit ==> existing + (Accumulate(docs, limit, existing).total - existing) <= limit
  {
    TotalCounts(docs, limit, existing);
  }

  /** When every non-empty text fits the budget, the context is every such
      document in its header and footer, and all of their characters are
      counted. */
  lemma AllFit(docs: seq<Document>, limit: int, existing: int)
    requires existing + SumLengths(NonEmpty(docs)) <= limit
    ensures Accumulate(docs, limit, existing) == Accumulated(Blocks(NonEmpty(docs)), existing + SumLengths(NonEmpty(docs)))
    decreases |docs|
  {
    if docs != [] {
      AllFit(docs[1..], limit, if docs[0].text == "" then existing else existing + |docs[0].text|);
    }
  }

  /** With a count already at or over the budget, nothing is added: the
      context is empty and the count does not move. */
  lemma OverBudgetAddsNothing(docs: seq<Document>, limit: int, existing: int)
    requires existing >= limit
    ensures Accumulate(docs, limit, existing) == Accumulated("", existing)
    decreases |docs|
  {
    if docs != [] && docs[0].text == "" {
      OverBudgetAddsNothing(docs[1..], limit, existing);
    }
  }

  /** A document with an empty text contributes nothing, wherever it is. */
  lemma {:induction false} EmptyDocumentIgnored(before: seq<Document>, d: Document, after: seq<Document>, limit: int, total: int)
    requires d.text == ""
    ensures Accumulate(before + [d] + after, limit, total) == Accumulate(before + after, limit, total)
    decreases |before|
  {
    if before == [] {
      assert (before + [d] + after)[1..] == after;
      assert before + after == after;
    } else {
      var b := before[0];
      assert (before + [d] + after)[0] == b && (before + [d] + after)[1..] == before[1..] + [d] + after;
      assert (before + after)[0] == b && (before + after)[1..] == before[1..] + after;
      var t := if b.text == "" then total else total + |b.text|;
      EmptyDocumentIgnored(before[1..], d, after, limit, t);
    }
  }

  /** Once a document does not fit, no later document contributes: whatever
      follows the first document that overflows is ignored. */
  lemma {:induction false} LaterDocumentsIgnored(before: seq<Document>, d: Document, after: seq<Document>, limit: int, total: int)
    requires d.text != ""
    requires Accumulate(before, limit, total).total + |d.text| > limit
    ensures Accumulate(before + [d] + after, limit, total) == Accumulate(before + [d], limit, total)
    decreases |before|
  {
    var s1, s2 := before + [d] + after, before + [d];
    if before == [] {
      assert s1[0] == d && s2[0] == d;
      StopsAtFirst(s1, s2, limit, total);
    } else {
      var b := before[0];
      assert s1[0] == b && s1[1..] == before[1..] + [d] + after;
      assert s2[0] == b && s2[1..] == before[1..] + [d];
      if b.text == "" {
        SkipsFirst(s1, limit, total);
        SkipsFirst(s2, limit, total);
        SkipsFirst(before, limit, total);
        LaterDocumentsIgnored(before[1..], d, after, limit, total);
      } else if total + |b.text| <= limit {
        IncludesFirst(s1, limit, total);
        IncludesFirst(s2, limit, total);
        IncludesFirst(before, limit, total);
        LaterDocumentsIgnored(before[1..], d, after, limit, total + |b.text|);
      } else {
        StopsAtFirst(s1, s2, limit, total);
      }
    }
  }

  lemma SkipsFirst(s: seq<Document>, limit: int, total: int)
    requires s != [] && s[0].text == ""
    ensures Accumulate(s, limit, total) == Accumulate(s[1..], limit, total)
  {
  }

  lemma IncludesFirst(s: seq<Document>, limit: int, total: int)
    requires s != [] && s[0].text != "" && total + |s[0].text| <= limit
    ensures var r := Accumulate(s[1..], limit, total + |s[0].text|);
      Accumulate(s, limit, total) == Accumulated(FullBlock(s[0]) + r.context, r.total)
  {
  }

  /** Two lists that start with the same document that does not fit gather
      the same. */
  lemma StopsAtFirst(s1: seq<Document>, s2: seq<Document>, limit: int, total: int)
    requires s1 != [] && s2 != [] && s1[0] == s2[0]
    requires s1[0].text != "" && total + |s1[0].text| > limit
    ensures Accumulate(s1, limit, total) == Accumulate(s2, limit, total)
  {
  }

  /** The initial load of the local documents: with none, the context is
      empty; otherwise it is what gathering them under the assistant's
      budget amounts to, from a count of zero. */
  method LoadLocalDocuments(docs: seq<Document>) returns (context: string)
    ensures context == GatheredContext(docs, MaxCharsLimit, 0)
    ensures docs == [] ==> context == ""
  {
    if docs == [] {
      return "";
    }
    var added;
    context, added := ProcessDocuments(docs, MaxCharsLimit, 0);
    ContextBlocks(docs, MaxCharsLimit, 0);
  }

  /** Processing uploaded documents: the budget already holds the length of
      the local context (headers and footers included), so the uploaded
      context is what is gathered after it, the characters added are those
      of the uploaded texts included whole, and with the local context at or
      over the budget nothing is added. */
  method ProcessUploaded(local: string, docs: seq<Document>) returns (context: string, added: int)
    ensures context == GatheredContext(docs, MaxCharsLimit, |local|)
    ensures added == SumLengths(NonEmpty(docs)[..IncludedCount(docs, MaxCharsLimit, |local|)])
    ensures |local| >= MaxCharsLimit ==> context == "" && added == 0
  {
    context, added := ProcessDocuments(docs, MaxCharsLimit, |local|);
    ContextBlocks(docs, MaxCharsLimit, |local|);
    AddedCountsWholeDocuments(docs, MaxCharsLimit, |local|);
    if |local| >= MaxCharsLimit {
      OverBudgetAddsNothing(docs, MaxCharsLimit, |local|);
    }
  }

  // ---------------------------------------------------------------------
  // Combined context and the messages sent to the model
  // ---------------------------------------------------------------------

  /** The context used when no document text is available. */
  const NoDocuments := "ไม่พบเอกสารภายใน"

  /** The document context of a question: the local context followed by the
      uploaded one, or the placeholder when both are empty. */
  function DocContext(local: string, uploaded: string): (r: string)
    ensures r != ""
    ensures local + uploaded != "" ==> r == local + uploaded
    ensures local + uploaded == "" ==> r == NoDocuments
  {
    var full := local + uploaded;
    if full != "" then full else NoDocuments
  }

  /** A chat message. */
  datatype Message = Message(role: string, content: string)

  /** How many of the latest history messages go with a question. */
  const HistoryWindow := 10

  /** The latest (at most ten) messages of the history, in order. */
  function RecentHistory(history: seq<Message>): (w: seq<Message>)
    ensures |w| == if |history| < HistoryWindow then |history| else HistoryWindow
    ensures w == history[|history| - |w|..]
  {
    PySlice(history, -HistoryWindow, |history|)
  }

  /** The messages sent to the model: the system prompt, then the latest
      history messages one by one. */
  method BuildMessages(systemPrompt: string, history: seq<Message>) returns (msgs: seq<Message>)
    ensures msgs == [Message("system", systemPrompt)] + RecentHistory(history)
  {
    msgs := [Message("system", systemPrompt)];
    var recent := PySlice(history, -HistoryWindow, |history|);
    for i := 0 to |recent|
      invariant msgs == [Message("system", systemPrompt)] + recent[..i]
    {
      msgs := msgs + [recent[i]];
      assert recent[..i + 1] == recent[..i] + [recent[i]];
    }
    assert recent[..|recent|] == recent;
  }

  /** The request holds one system message and at most ten history
      messages, which are the latest ones in their original order. */
  lemma MessagesWindow(systemPrompt: string, history: seq<Message>)
    ensures var msgs := [Message("system", systemPrompt)] + RecentHistory(history);
      1 <= |msgs| <= 1 + HistoryWindow
      && msgs[0].role == "system"
      && (|history| <= HistoryWindow ==> msgs[1..] == history)
      && (|history| > HistoryWindow ==> msgs[1..] == history[|history| - HistoryWindow..])
  {
    var msgs := [Message("system", systemPrompt)] + RecentHistory(history);
    assert msgs[1..] == RecentHistory(history);
  }
}
