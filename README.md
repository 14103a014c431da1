# PA-Assist core, modelled in Dafny

PA-Assist is a Streamlit tool for performance-audit planning, together with a
companion chatbot. Auditors fill in a 6W2H plan (who, whom, what, where,
when, why, how, how much). They search a library of past audit findings for
similar cases. They ask a language model for issues, expected findings and a
draft report. The chatbot answers questions over a set of reference
documents that are packed into a bounded prompt context.

This project models the deterministic core of both programs and proves what
that core promises:

- `wrappers.dfy` (`Wrappers`): `Option` and `Result`.
- `text.dfy` (`Text`): the Python `str` operations the core relies on.
  These are `strip`, `find` (with its `-1`), `split`, `join`, `lower`,
  `replace` and slicing with Python's negative-index rules, each with a
  contract, and lemmas such as split/join round trips and "`find` returns
  the first occurrence".
- `id_allocator.dfy` (`IdAllocator`): `next_id`. It parses the numeric
  suffix after the last `-` of every identifier in a column and returns
  `prefix-NNN` with the largest suffix plus one, padded to three digits, or
  `prefix-001` when there is none.
- `findings.dfy` (`Findings`): `load_findings`. It appends an uploaded table
  to the default library and cleans the cells. Null text in the six columns
  issue_title, issue_detail, cause_detail, recommendation, program and unit
  becomes `""`; the other text columns keep their nulls. A
  missing or non-numeric year becomes 0. A missing or non-numeric severity
  becomes 3, and every severity is then clipped to 1..5.
- `ranking.dfy` (`Ranking`):
  - the document text used to index a finding;
  - `search_candidates`, with the cosine similarities taken as an input: the
    min-max year normalisation, the 0.65/0.25/0.10 blend, the descending sort
    and the top-k cut.
- `llm_parsers.dfy` (`LlmParsers`): the three parsers of model output:
  - the `key: value` 6W2H parser;
  - the `#####` section splitter;
  - the Thai-tag section extractor.
- `document_context.dfy` (`DocumentContext`): from the chatbot,
  - `process_documents`, which packs documents into a context under a
    budget of `MAX_CHARS_LIMIT` (100000) counted document characters (the
    headers, footers and truncation note are not counted, so the context
    itself can be longer);
  - the "no documents" fallback;
  - the ten-message history window.

Where the source updates state step by step, the model is a method with a
loop, proved against a specification function:
- `NextId` builds the list of suffixes;
- `LoadFindings` and `FillColumns` fill the text columns in turn;
- `Apply6W2H` updates the plan line by line;
- `ProcessDocuments` walks the documents with a running total and a break;
- `BuildMessages` appends the recent history.

The rest is functions and lemmas.

## Model

| member | source | states |
|---|---|---|
| IdAllocator.NextId | pa_ai_app_with_llm_fixed_v5_paassist.py:32-41 | The returned identifier is the prefix, a dash and the three-digit padding of one more than the largest parsable suffix (1 when the column is empty or has no parsable suffix) |
| IdAllocator.Pad3 | pa_ai_app_with_llm_fixed_v5_paassist.py:41 | `{n:03d}`: all digits, at least three, denoting n; exactly three below 1000; the plain decimal from 100 upward |
| IdAllocator.ParseInt | pa_ai_app_with_llm_fixed_v5_paassist.py:37 | `int()` of a suffix succeeds exactly on a non-empty digit string, and yields that string's value |
| IdAllocator.LastSegment | pa_ai_app_with_llm_fixed_v5_paassist.py:37 | `split("-")[-1]` contains no dash |
| IdAllocator.LastSegmentIsTail | pa_ai_app_with_llm_fixed_v5_paassist.py:37 | The last segment is the whole string or the part after its last dash |
| IdAllocator.Suffix | pa_ai_app_with_llm_fixed_v5_paassist.py:37 | A suffix parses exactly when the last dash-separated segment is a non-empty string of digits, and its value is that segment's number |
| IdAllocator.ParsedSuffixesAre | pa_ai_app_with_llm_fixed_v5_paassist.py:35-39 | A number is among the collected suffixes exactly when some identifier of the column parses to it; unparsable ones are skipped |
| IdAllocator.NextNumberExceeds | pa_ai_app_with_llm_fixed_v5_paassist.py:40 | The allocated number exceeds every parsable suffix in the column |
| IdAllocator.NextNumber | pa_ai_app_with_llm_fixed_v5_paassist.py:40 | `max(nums) + 1 if nums else 1`: at least 1, above every collected suffix, and either 1 or one more than a collected suffix |
| IdAllocator.NextNumberIsLeast | pa_ai_app_with_llm_fixed_v5_paassist.py:40 | It is the least positive number that does so |
| IdAllocator.SuffixOfAllocated | pa_ai_app_with_llm_fixed_v5_paassist.py:37-41 | Parsing an allocated identifier gives back its number |
| IdAllocator.AllocationAdvances | pa_ai_app_with_llm_fixed_v5_paassist.py:32-41 | The allocated identifier is new to the column, and after it is added the next allocation is one higher |
| IdAllocator.ExampleAllocation | pa_ai_app_with_llm_fixed_v5_paassist.py:32-41 | With identifiers ending in 001, 003 and a non-number, the next identifier ends in 004 |
| Findings.Concat | pa_ai_app_with_llm_fixed_v5_paassist.py:71 | Concatenating two well-formed tables gives a well-formed table |
| Findings.Combine | pa_ai_app_with_llm_fixed_v5_paassist.py:62-74 | The combined table has the default rows plus, when the upload is present and not empty, the upload's rows; it keeps the default columns and is well formed when both inputs are |
| Findings.UnknownColumnsAppended | pa_ai_app_with_llm_fixed_v5_paassist.py:70-71 | An upload with rows only in columns the model does not name is not empty, so its rows are appended |
| Findings.CombineOrder | pa_ai_app_with_llm_fixed_v5_paassist.py:53-74 | The default rows come first. A missing or empty upload leaves the library unchanged. A non-empty upload's rows follow the default rows, and the columns are the union of both, other columns included |
| Findings.WithText | pa_ai_app_with_llm_fixed_v5_paassist.py:80 | Assigning one text column changes that cell and no other |
| Findings.FillTextsCells | pa_ai_app_with_llm_fixed_v5_paassist.py:78-80 | `fillna("")` over the listed text columns. A listed column that is present gets "" for null and keeps its text. Every other cell, and year and severity, is unchanged |
| Findings.CleanRow | pa_ai_app_with_llm_fixed_v5_paassist.py:77-84 | A cleaned row has a year wherever the table has a year column, and a severity in 1..5 wherever it has a severity column |
| Findings.CleanRowCells | pa_ai_app_with_llm_fixed_v5_paassist.py:77-84 | Per cell of a cleaned row: the six text columns are filled with "". When present, year is its number or 0. When present, severity is its number or 3, clipped to 1..5. Columns that are absent are left alone |
| Findings.CleanRowKeepsAbsent | pa_ai_app_with_llm_fixed_v5_paassist.py:78-84 | Cleaning adds no value to a column the table does not have |
| Findings.FillColumns | pa_ai_app_with_llm_fixed_v5_paassist.py:78-80 | The loop over the six text columns leaves each row equal to its filled version, and keeps the columns and the row count |
| Findings.CleanColumns | pa_ai_app_with_llm_fixed_v5_paassist.py:77-84 | The whole cleaning step maps every row to its cleaned version and keeps the columns and the row count |
| Findings.LoadFindings | pa_ai_app_with_llm_fixed_v5_paassist.py:50-86 | The loader returns the combined table with every row cleaned (an empty table is returned as is). The result satisfies the cleaned-table invariant |
| Findings.LoadedIsCleaned | pa_ai_app_with_llm_fixed_v5_paassist.py:77-84 | A table whose rows are all cleaned has no null in those of the six columns issue_title, issue_detail, cause_detail, recommendation, program and unit that it has (finding_id, cause_category and outcomes_impact may stay null), and has a year and a severity in 1..5 wherever those columns exist |
| Ranking.DocumentText | pa_ai_app_with_llm_fixed_v5_paassist.py:91-94 | The indexed text starts with the title and ends with the recommendation (nulls as ""), with at least three separating characters between |
| Ranking.DocumentTextJoinsFields | pa_ai_app_with_llm_fixed_v5_paassist.py:91-94 | The indexed text is title, detail, cause and recommendation (nulls as "") joined by single spaces; its length is their sum plus 3 |
| Ranking.DocumentTextSplits | pa_ai_app_with_llm_fixed_v5_paassist.py:91-94 | When no field contains a space, splitting the indexed text on spaces gives back the four fields |
| Ranking.DocumentTexts | pa_ai_app_with_llm_fixed_v5_paassist.py:91-94 | Fails (the column lookup error) exactly when one of the four columns is missing, naming a missing one; otherwise yields one text per row |
| Ranking.ScaleProperties | pa_ai_app_with_llm_fixed_v5_paassist.py:105 | Min-max scaling is monotone, maps the minimum to 0 and the maximum to 1 |
| Ranking.NormalizeProperties | pa_ai_app_with_llm_fixed_v5_paassist.py:104-105 | Over spread years: the earliest year gets 0, the latest gets 1, and the order of years is kept within [0,1] |
| Ranking.NormalizeMonotone | pa_ai_app_with_llm_fixed_v5_paassist.py:105 | An earlier year never gets a larger norm than a later one |
| Ranking.Years | pa_ai_app_with_llm_fixed_v5_paassist.py:104 | On a cleaned table with a year column, one year per row, equal to that row's year |
| Ranking.YearNorms | pa_ai_app_with_llm_fixed_v5_paassist.py:104-107 | One year norm per row |
| Ranking.YearNormsProperties | pa_ai_app_with_llm_fixed_v5_paassist.py:104-107 | Every year norm lies in [0,1]. All are 0 when the year column is missing or all years are equal. Otherwise min maps to 0 and max to 1, monotonically |
| Ranking.SevNorm | pa_ai_app_with_llm_fixed_v5_paassist.py:108 | `sev_norm` is 3/5 without a severity column, and within [0.2, 1] for a severity in 1..5 |
| Ranking.Candidates | pa_ai_app_with_llm_fixed_v5_paassist.py:102-109 | One scored candidate per row, carrying that row's finding and similarity, scored by `Blend(sim, sev_norm, year_norm)` = 0.65 sim + 0.25 sev_norm + 0.10 year_norm |
| Ranking.ScoreBounds | pa_ai_app_with_llm_fixed_v5_paassist.py:103-109 | With similarities in [0,1], every composite score lies in [0.05, 1] |
| Ranking.InsertByScore | pa_ai_app_with_llm_fixed_v5_paassist.py:115 | Inserting into a list sorted by descending score keeps it sorted and adds exactly that candidate |
| Ranking.SortByScore | pa_ai_app_with_llm_fixed_v5_paassist.py:115 | The result is sorted by descending score and is a permutation of the input |
| Ranking.SearchCandidates | pa_ai_app_with_llm_fixed_v5_paassist.py:99-115 | The result has min(top_k, rows) candidates, each one of the scored rows |
| Ranking.SearchCandidatesIsTopK | pa_ai_app_with_llm_fixed_v5_paassist.py:99-115 | The result has min(top_k, rows) candidates, is sorted by descending score, is a sub-multiset of all scored candidates, and no left-out candidate scores higher than any returned one |
| Ranking.ExampleRanking | pa_ai_app_with_llm_fixed_v5_paassist.py:99-115 | A severity-5 finding from 2023 outranks a severity-2 finding from 2020 when it is at least as similar to the query |
| LlmParsers.KeyValue | pa_ai_app_with_llm_fixed_v5_paassist.py:198-199 | A line yields a key/value pair exactly when it contains a colon |
| LlmParsers.KeyValueAt | pa_ai_app_with_llm_fixed_v5_paassist.py:198-201 | The pair splits at the first colon: the key is the normalised text before it, the value the stripped text after it |
| LlmParsers.KeyValueOf | pa_ai_app_with_llm_fixed_v5_paassist.py:199-201 | A line built as key, colon, value, with no colon in the key, parses back to the normalised key and the stripped value |
| LlmParsers.HowMuchKey | pa_ai_app_with_llm_fixed_v5_paassist.py:200-202 | "How much" normalises to the plan key "how_much" |
| LlmParsers.NormalizeKey | pa_ai_app_with_llm_fixed_v5_paassist.py:200 | The normalised key has no space and is no longer than the key |
| LlmParsers.ApplyLineColon | pa_ai_app_with_llm_fixed_v5_paassist.py:198-217 | A line with a colon whose normalised key is a plan field sets that field to the stripped value; any other key leaves the plan unchanged |
| LlmParsers.ApplyLinesAt | pa_ai_app_with_llm_fixed_v5_paassist.py:196-217 | Per key: a plan field gets the value of the last line that names it; every other entry is as before |
| LlmParsers.ApplyLinesLastWins | pa_ai_app_with_llm_fixed_v5_paassist.py:196-217 | The same for all keys at once: plan fields named by some line take the last such value; keys outside the eight fields and keys no line names are untouched |
| LlmParsers.ApplyLine | pa_ai_app_with_llm_fixed_v5_paassist.py:198-217 | One line keeps every key of the plan, adds none outside the eight 6W2H fields, and leaves every key outside them unchanged |
| LlmParsers.ApplyLines | pa_ai_app_with_llm_fixed_v5_paassist.py:197-217 | Parsing only adds keys among the eight 6W2H fields and removes none |
| LlmParsers.AnswerLines | pa_ai_app_with_llm_fixed_v5_paassist.py:196 | The lines are at least one, contain no line feed, and joined by line feeds give back the stripped answer |
| LlmParsers.Apply6W2H | pa_ai_app_with_llm_fixed_v5_paassist.py:196-217 | The line-by-line loop over the stripped output's lines yields the plan described by the lemmas above |
| LlmParsers.SplitSections | pa_ai_app_with_llm_fixed_v5_paassist.py:429-432 | Issues are empty exactly when the text has no `#####`; findings only follow issues, and the report only follows findings |
| LlmParsers.SectionsReassemble | pa_ai_app_with_llm_fixed_v5_paassist.py:429-432 | The preamble, the three sections (each starting with `#####`) and any parts after the fourth marker concatenate back to the original text |
| LlmParsers.SectionsOfMarked | pa_ai_app_with_llm_fixed_v5_paassist.py:429-432 | A text laid out as preamble and three marked sections is split back into exactly those sections |
| LlmParsers.ExtractSection | pa_ai_app_with_llm_fixed_v5_paassist.py:591-593 | The extracted text is stripped and no longer than the response |
| LlmParsers.ExtractSections | pa_ai_app_with_llm_fixed_v5_paassist.py:591-601 | Each of the three extracted sections is stripped and no longer than the response |
| LlmParsers.TagsIn | pa_ai_app_with_llm_fixed_v5_paassist.py:591-592 | When the opening and closing tags first occur around a middle part, `find` locates them there |
| LlmParsers.SectionAt | pa_ai_app_with_llm_fixed_v5_paassist.py:591-593 | When the start index lies at or before the end index and both are in range, the section is the stripped text between them |
| LlmParsers.ExtractBetween | pa_ai_app_with_llm_fixed_v5_paassist.py:591-601 | When the first opening tag precedes the first closing tag, the section is the stripped text between them |
| LlmParsers.ExtractMissingClose | pa_ai_app_with_llm_fixed_v5_paassist.py:591-593 | With no closing tag the end index is -1, so the slice stops one character before the end of the response |
| LlmParsers.ExtractMissingOpen | pa_ai_app_with_llm_fixed_v5_paassist.py:591-593 | With no opening tag the start index is the tag length minus one, not 0 |
| LlmParsers.ExtractCloseFirst | pa_ai_app_with_llm_fixed_v5_paassist.py:591-593 | When the closing tag occurs no later than the end of the opening tag, the section is empty |
| DocumentContext.Accumulate | pa_ai_bot.py:96-123 | The running total never decreases, and never passes the limit when it starts within it |
| DocumentContext.ProcessDocuments | pa_ai_bot.py:96-123 | The loop's context and added count equal those of the recursive specification |
| DocumentContext.NonEmpty | pa_ai_bot.py:104 | Dropping documents with empty text keeps no more documents than there were |
| DocumentContext.IncludedCount | pa_ai_bot.py:104-117 | No more documents are included whole than there are non-empty documents |
| DocumentContext.TotalCounts | pa_ai_bot.py:99-117 | The final total is the starting length plus the lengths of the non-empty documents included whole |
| DocumentContext.LongestFittingRun | pa_ai_bot.py:104-117 | The documents included whole fit within the limit, and the next non-empty document, if any, does not |
| DocumentContext.ContextBlocks | pa_ai_bot.py:101-116 | The context is the Start/End blocks of the documents included whole, then, if room is left, a truncated block of the next document with its note |
| DocumentContext.AddedCountsWholeDocuments | pa_ai_bot.py:107-123 | The added count covers only documents included whole (a truncated tail is not counted) and, when the starting length is within the limit, keeps the total within it |
| DocumentContext.AllFit | pa_ai_bot.py:113-117 | When everything fits, the context is every non-empty document's full block and the total grows by all their lengths |
| DocumentContext.OverBudgetAddsNothing | pa_ai_bot.py:106-112 | An existing length at or above the limit adds no text and no count |
| DocumentContext.EmptyDocumentIgnored | pa_ai_bot.py:104 | A document with empty text can be removed without changing the result |
| DocumentContext.LaterDocumentsIgnored | pa_ai_bot.py:106-112 | Once a non-empty document overflows the limit, the documents after it do not matter |
| DocumentContext.LoadLocalDocuments | pa_ai_bot.py:125-135 | The local context is empty without documents, and otherwise the gathered context of the documents under the 100000-character budget from a count of 0 |
| DocumentContext.ProcessUploaded | pa_ai_bot.py:181-186 | The uploaded context is gathered after the local context's length, the added count covers only uploaded texts included whole, and a local context at or over the budget leaves room for nothing |
| DocumentContext.DocContext | pa_ai_bot.py:233-234 | The prompt context is never empty: it is the local and uploaded contexts joined, or the "no internal documents" text when both are empty |
| DocumentContext.RecentHistory | pa_ai_bot.py:275 | The window is the last min(10, n) messages of the history |
| DocumentContext.BuildMessages | pa_ai_bot.py:271-276 | The messages sent are the system prompt followed by the recent history |
| DocumentContext.MessagesWindow | pa_ai_bot.py:271-276 | At most 11 messages, the first from the system. The whole history when it has at most ten messages, otherwise its last ten |

## Left out

- The Streamlit user interface, session state, caching decorators and every other button, form and page of both programs. They only display values and store them.
- Reading the library file and the upload (CSV and Excel parsing, read errors and their messages). The default library and the upload come in as tables; a failed read is the same as no table.
- pandas cells that are numbers but not integers. Year and severity are whole numbers or null in the model, so the truncation by `astype(int)` of a fractional value is not represented. Nor is a suffix that `int()` accepts but that is not a plain string of ASCII digits: a sign or surrounding spaces (`"+7"`, `" 7"`), underscores between digits (`"0_1"`), or non-ASCII decimal digits such as the Thai `๐`-`๙`. Such a suffix is skipped in the model, so `next_id` can differ from the source on such a column.
- The cells of columns other than the eleven a finding has. Only whether a table has such columns is represented, so that an upload with rows in them alone is not taken for an empty one.
- `str()` of a null identifier cell (`"nan"`). Such a cell has no numeric suffix in either the source or the model.
- TF-IDF vectorisation and cosine similarity. The similarities are an input to `SearchCandidates` that the model assumes has one value per row.
- Floating-point arithmetic. Scores are exact reals, so rounding in the blend is not represented.
- The projection of the ranked table onto its display columns. A candidate keeps the whole finding.
- Ranking.SortByScore: a stable insertion sort stands in for pandas' default sort, which is not stable. The contract (sorted by descending score and a permutation) holds for any tie order, so ties may come out in a different order than pandas gives.
- Every call to the language model, the prompt texts and the streaming of replies. The model parses the reply text it is given.
- LlmParsers.KeyValue: `lower()` is modelled on ASCII letters only. Other scripts are left unchanged, which is what Python does for Thai but not for every script.
- LlmParsers.ApplyLinesLastWins: the chain of eight key comparisons is modelled as membership in the set of the eight plan keys, which assigns the same field.
- Text extraction from PDF, TXT and CSV files, and the file names read from the document folder. Each document is modelled as a name and its extracted text.
- The warning, toast, success and info messages around `process_documents`, and the clearing of the uploaded context by its buttons. Only the contexts and counts are modelled.
- The history that the chatbot sends already contains the prompt just appended. `BuildMessages` takes the history as given.
- The plan identifier built from the current date and time, and the CSV download link.
