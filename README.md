# NIS2 compliance mapper: verified model of the mapping core

This project models the decision logic of a service that reads compliance evidence
(PDF, JSON or SQL), cuts the extracted text into statements, and maps each statement
to a NIS2 domain and a control category with a fused confidence score. The model
also covers the in-memory store of analyses and the dashboard's threshold filter and
per-domain counts.

Modules, one per source file (plus two shared ones):

- `Wrappers` (`wrappers.dfy`): `Option` and `Result` for the error paths.
- `Text` (`text.dfy`): `str.lower()`, `str.isspace()`, `str.strip()`, the `in` test on
  strings, list slicing, and an order-keeping subsequence relation used to state the filters.
- `Reasoner` (`reasoner.dfy`), from `backend/services/reasoner.py`:
  - the keyword table and the pattern table;
  - keyword density;
  - first-match control detection, with the regular expressions written out as
    word-boundary predicates;
  - score fusion;
  - the matched-keyword list;
  - `build_reasoning` as a method, with its keyword loop as a method of its own.
- `Analyzer` (`analyzer.dfy`), from `backend/services/analyzer.py`:
  - segmentation as functions: newline collapse, the sentence split with the
    separators it removes, strip and the length filter;
  - the findings loop as a method whose classifier is a function parameter
    that can fail.
- `JsonParser` (`json_parser.dfy`), from `backend/parsers/json_parser.py`: a JSON
  datatype, the recursive flatten, and the space join.
- `Api` (`api.dfy`), from `backend/main.py`:
  - `get_extension` and the extension dispatch;
  - the error answers;
  - `RESULTS_DB` as a class `ResultStore` with a `map` field, the upload method
    that writes it, and the lookup that reads it.
- `Dashboard` (`dashboard.dfy`), from `frontend/src/App.jsx`:
  - the `filtered` threshold filter;
  - the `chartData` counting loop as a method over a `map` of counts.

Modelling choices:

- Scores are `real`.
- `str.lower()` folds ASCII letters only.
- `\w` is `[a-zA-Z0-9_]`.
- `\s` and `strip()` use the full set of characters for which `str.isspace()` holds.
- The classifier, the PDF and SQL parsers, and JSON decoding are function parameters
  that return a `Result`. A failure stands for the exception they raise.
- The analysis id is a parameter of the upload method.
- The worked example "All administrative logins require MFA and are logged via SIEM
  for audit." with model score 0.9 fuses to 0.54 + 1/48 + 0.15 + 0.1 ≈ 0.811. That is
  below the model score, although the example is sometimes described as ending above
  it. The model follows the code at `backend/services/reasoner.py:47-57`
  (`Reasoner.FuseExamples`).

## Model

| member | source | states |
|---|---|---|
| Text.Lower | backend/services/reasoner.py:26 | the lowercased text has the same length and each character is folded on its own (ASCII letters only) |
| Text.LowerIdempotent | backend/services/reasoner.py:34 | lowercasing twice equals lowercasing once |
| Text.Strip | backend/services/analyzer.py:22 | the result has no whitespace at either end, is no longer than the input, is made of input characters, is empty exactly when the input is all whitespace, and leaves a stripped text unchanged |
| Text.StripRemovesOnlyEnds | backend/services/analyzer.py:22 | the stripped text is one contiguous slice `s[i..j]` of the input, and everything before `i` and from `j` on is whitespace; so only the two ends are removed |
| Text.Take | backend/services/reasoner.py:66 | `s[:n]` is the prefix of length min(n, len(s)) |
| Reasoner.Tokens | backend/services/reasoner.py:26 | every token is a non-empty run of `[a-zA-Z0-9_-]` |
| Reasoner.TokensEmpty | backend/services/reasoner.py:26-28 | there are no tokens exactly when the text has no token character |
| Reasoner.TokensSnocGap | backend/services/reasoner.py:26 | a character outside `[a-zA-Z0-9_-]` appended to the text adds no token and changes none |
| Reasoner.TokensSnocOpen | backend/services/reasoner.py:26 | a token character appended after a non-token character (or to the empty text) starts a new one-character token at the end |
| Reasoner.TokensSnocExtend | backend/services/reasoner.py:26 | a token character appended right after a token character lengthens the last token by that character, so tokens are maximal runs, in text order |
| Reasoner.Hits | backend/services/reasoner.py:30 | the hit count never exceeds the number of tokens |
| Reasoner.Density | backend/services/reasoner.py:27-31 | the density is in [0, 1], is 0 for no tokens, and otherwise times the token count equals the hit count |
| Reasoner.KeywordDensity | backend/services/reasoner.py:25-31 | keyword density is in [0, 1]; it is 0 when the lowercased text has no token character and 0 for a domain missing from the keyword table |
| Reasoner.HitsNoKeywords | backend/services/reasoner.py:29-30 | with an empty keyword set nothing is a hit |
| Reasoner.HitsCountPositions | backend/services/reasoner.py:30 | the hit count is the number of token positions holding a keyword |
| Reasoner.HitsAppend | backend/services/reasoner.py:30 | hits add up over concatenated token lists, so each repeated keyword counts every time |
| Reasoner.DensityCountsOccurrences | backend/services/reasoner.py:30-31 | for a non-empty token list, density × token count = number of keyword positions, duplicates included |
| Reasoner.NonTokenKeywordNeverHits | backend/services/reasoner.py:26-30 | a keyword containing a non-token character never matches a token and can be dropped from the set without changing hits |
| Reasoner.DueDiligenceNeverCounts | backend/services/reasoner.py:12 | the keyword "due diligence" never contributes to Supply Chain Security density |
| Reasoner.FirstMatch | backend/services/reasoner.py:35-37 | the returned index is the first pattern that the text matches; no earlier pattern matches; the length of the list means none matched |
| Reasoner.DetectControl | backend/services/reasoner.py:33-38 | the sentinel "General NIS2 Control" comes back exactly when no pattern matches the lowercased text; otherwise the label belongs to a matching pattern with no earlier pattern matching |
| Reasoner.DetectControlIgnoresCase | backend/services/reasoner.py:34 | detection gives the same label for a text and its lowercase form |
| Reasoner.Tables | backend/services/reasoner.py:9-23 | the keyword table has exactly the four domains; there are six control patterns, none empty, with pairwise distinct labels, none of them the sentinel |
| Reasoner.MfaOutranksAccessControl | backend/services/reasoner.py:17-22 | "Access requires MFA and role-based permission checks." is labelled Multi-Factor Authentication, because the MFA pattern is listed before Access Control |
| Reasoner.ControlBonusOfText | backend/services/reasoner.py:44-45 | the control bonus is 1.0 exactly when some control pattern matches the lowercased text, and 0.0 otherwise |
| Reasoner.Fuse | backend/services/reasoner.py:47-57 | the fused confidence always lies in [0, 1] |
| Reasoner.FuseMonotone | backend/services/reasoner.py:45-57 | a higher model score, higher density or higher bonus never lowers the fused confidence |
| Reasoner.FuseExamples | backend/services/reasoner.py:47-57 | worked values: (0.9, 1/12, 1) gives 0.54+1/48+0.15+0.1, which is below 0.9; (1, 1, 1) clamps to 1; 0.75 gets no boost; (0.8, 0.5, 1) gives 0.855 |
| Reasoner.FuseExtremes | backend/services/reasoner.py:47-57 | for inputs in [0,1], confidence 0 exactly when every signal is 0; confidence 1 only with the >0.75 boost |
| Reasoner.SubstringMatches | backend/services/reasoner.py:62-65 | the matches keep the keyword list's order, each occurs as a substring of the text, and every keyword that occurs is among them |
| Reasoner.MatchedKeywordsSound | backend/services/reasoner.py:62-66 | the explanation list has at most 6 entries, keeps definition order, holds only domain keywords present in the text, and holds all of them when there are at most 6 |
| Reasoner.ReasoningOf | backend/services/reasoner.py:42-66 | the explanation for a statement reports a density in [0, 1], a fused confidence in [0, 1] and at most six matched keywords |
| Reasoner.CollectMatches | backend/services/reasoner.py:61-64 | the keyword loop collects exactly the keywords occurring in the lowercased text, in keyword-list order |
| Reasoner.BuildReasoning | backend/services/reasoner.py:40-72 | the fused confidence and the explanation equal density, detection, fusion and the first six substring matches of the domain's keywords; the confidence is in [0, 1] and the list has at most 6 entries |
| Analyzer.CollapseNewlines | backend/services/analyzer.py:16 | the result has no newline and is never longer; text without newlines is unchanged |
| Analyzer.CollapseNewlinesIdempotent | backend/services/analyzer.py:16 | collapsing twice equals collapsing once |
| Analyzer.NewlineRun | backend/services/analyzer.py:16 | the leading run of newlines: every character before it is a newline and the next one is not |
| Analyzer.CollapseNewlinesAppend | backend/services/analyzer.py:16 | when the first text does not end in a newline, collapsing the concatenation collapses each part on its own |
| Analyzer.CollapseNewlineRun | backend/services/analyzer.py:16 | a run of k ≥ 1 newlines at the start, followed by no further newline, becomes a single space |
| Analyzer.CollapseNewlinesBetween | backend/services/analyzer.py:16 | k ≥ 1 newlines between a text not ending in a newline and one not starting with one become exactly one space, and the two sides are collapsed on their own |
| Analyzer.FirstCut | backend/services/analyzer.py:19 | the position found is the first whitespace right after `.`, `!` or `?` at or after the start, or the end of the text |
| Analyzer.SplitWithGaps | backend/services/analyzer.py:19 | there is one more piece than separators |
| Analyzer.SplitReassembles | backend/services/analyzer.py:19 | the pieces and the removed separators spell the text back, so the pieces are consecutive parts of it |
| Analyzer.SplitGapsAreWhitespace | backend/services/analyzer.py:19 | each removed separator is a non-empty whitespace run |
| Analyzer.SplitPiecesEndInPunct | backend/services/analyzer.py:19 | each piece but the last is non-empty and ends in `.`, `!` or `?` |
| Analyzer.SplitPiecesHaveNoCut | backend/services/analyzer.py:19 | no piece contains a further split position |
| Analyzer.SplitFirstPiece | backend/services/analyzer.py:19 | the first piece is a prefix of the text |
| Analyzer.SplitPiecesStartClean | backend/services/analyzer.py:19 | no piece after the first starts with whitespace, because each separator is a whole whitespace run |
| Analyzer.SplitPiecesChars | backend/services/analyzer.py:19 | every character of a piece is a character of the text |
| Analyzer.StripAll | backend/services/analyzer.py:22 | each line is replaced by its stripped form |
| Analyzer.KeepStatements | backend/services/analyzer.py:22 | every kept statement is stripped and longer than 15 characters |
| Analyzer.KeepStatementsSubseq | backend/services/analyzer.py:22 | the kept statements are the stripped lines in order, with some left out |
| Analyzer.KeepStatementsComplete | backend/services/analyzer.py:22 | every line that strips to more than 15 characters is kept |
| Analyzer.KeepStatementsCounts | backend/services/analyzer.py:22 | each text longer than 15 characters is kept as many times as it occurs among the stripped lines, and a shorter text never |
| Analyzer.StripAllSnoc | backend/services/analyzer.py:22 | stripping one more line appends that line's stripped form |
| Analyzer.KeepStatementsNone | backend/services/analyzer.py:22 | when every line strips to 15 characters or fewer, nothing is kept |
| Analyzer.KeepStatementsEmpty | backend/services/analyzer.py:22 | nothing is kept exactly when every line strips to 15 characters or fewer |
| Analyzer.SegmentStatements | backend/services/analyzer.py:16-22 | every statement of the segmentation is stripped, longer than 15 characters and free of newlines |
| Analyzer.SegmentEmpty | backend/services/analyzer.py:16-22 | empty input gives no statements |
| Analyzer.FindingOf | backend/services/analyzer.py:35-46 | the finding of a statement has a confidence in [0, 1] |
| Analyzer.FindingFields | backend/services/analyzer.py:31-46 | a finding reports its statement, the control detected in it, the classifier's domain, score and latency, and the source type; its confidence is the fusion of the score, the statement's keyword density and the control bonus, and equals the reasoning's confidence; its explanation lists the matched keywords, at most six |
| Analyzer.MakeFinding | backend/services/analyzer.py:29-47 | a finding carries its statement, the detected control, the classifier's domain, score and latency, the reasoning for them, and the caller's source type |
| Analyzer.FirstFailure | backend/services/analyzer.py:27-29 | the error of the first statement the classifier raises on; none exactly when every statement classifies |
| Analyzer.FirstFailureAt | backend/services/analyzer.py:27-29 | when statement k fails and none before it does, the reported error is statement k's |
| Analyzer.AnalyzeStatements | backend/services/analyzer.py:25-47 | the loop succeeds exactly when every statement classifies; a failure returns the first failing statement's error, the one `FirstFailure` names; success gives one finding per statement, in order, each built from that statement |
| Analyzer.AnalysisFindings | backend/services/analyzer.py:25-47 | every finding of an analysis comes from its statement: the statement classified, and the finding is built from that classification |
| Analyzer.AnalyzeDocument | backend/services/analyzer.py:7-56 | the analysis has the given id, the model metadata "bart-zero-shot" / "facebook/bart-large-mnli", and one finding per segmented statement, in order; it fails exactly when the classifier fails on some statement, with the first failing statement's error |
| JsonParser.FlattenMembersAppend | backend/parsers/json_parser.py:7-12 | an object's pieces for consecutive members are the first members' pieces followed by the rest |
| JsonParser.FlattenItemsAppend | backend/parsers/json_parser.py:13-17 | an array's pieces for consecutive items are the first items' pieces followed by the rest |
| JsonParser.FlattenObjectSnoc | backend/parsers/json_parser.py:7-12 | adding a member appends its key and then its value's pieces, so keys come in order, each before its value |
| JsonParser.FlattenArraySnoc | backend/parsers/json_parser.py:13-17 | adding an item appends that item's pieces |
| JsonParser.EmptyContainerItemVanishes | backend/parsers/json_parser.py:7-17 | an empty object or array inside a list adds no pieces |
| JsonParser.FlattenLength | backend/parsers/json_parser.py:6-19 | the number of pieces equals the number of object keys plus the number of scalar leaves |
| JsonParser.FlattenMembersLength | backend/parsers/json_parser.py:7-12 | a member list yields its keys plus its values' leaves |
| JsonParser.FlattenItemsLength | backend/parsers/json_parser.py:13-17 | an item list yields its items' keys plus their leaves |
| JsonParser.JoinSplitRoundTrip | backend/parsers/json_parser.py:21 | splitting the joined text at single spaces gives the pieces back when no piece holds a space |
| JsonParser.JoinAppend | backend/parsers/json_parser.py:21 | joining two non-empty lists gives their two joins with one space between |
| JsonParser.ParseJsonArrayAppend | backend/parsers/json_parser.py:13-21 | the text of two concatenated arrays whose pieces are non-empty is their two texts with one space between |
| JsonParser.ParseJsonObjectSnoc | backend/parsers/json_parser.py:7-12 | adding a member to an object appends (after a space, unless nothing came before) its key followed by its value's text |
| JsonParser.ParseJsonEmpty | backend/parsers/json_parser.py:7-21 | `{}` and `[]` give the empty text |
| JsonParser.ParseJsonScalar | backend/parsers/json_parser.py:18-21 | a scalar document gives its string form alone |
| Api.AfterLastDot | backend/main.py:47 | the result is the longest suffix without a '.', preceded by a '.' unless it is the whole name |
| Api.GetExtension | backend/main.py:46-47 | the extension is the lowercased suffix after the last '.', never contains a '.', and is the whole name lowercased when there is no '.' |
| Api.GetExtensionOfSuffix | backend/main.py:47 | for a name ending in '.' + e, where e has no '.', the extension is e lowercased |
| Api.AfterLastDotLower | backend/main.py:47 | taking the suffix after the last '.' commutes with lowercasing |
| Api.GetExtensionIgnoresCase | backend/main.py:47 | a file name and its lowercase form have the same extension |
| Api.Dispatch | backend/main.py:71-84 | an extension selects a parser exactly when it is pdf, json, sql or ddl; sql and ddl both select the SQL parser |
| Api.DispatchTable | backend/main.py:71-81 | pdf→"pdf", json→"json", sql and ddl→"sql", and distinct kinds report distinct names |
| Api.DispatchFileName | backend/main.py:67-84 | a file is dispatched by its last extension, lowercased |
| Api.ErrorResponseAsWritten | backend/main.py:84-98 | every failure of the upload endpoint, including the unsupported type, is answered with status 500 and the exception's text |
| Api.UnsupportedUploadAsWritten | backend/main.py:84-98 | an unsupported file type gets status 500 with detail "400: Unsupported file type" rather than its 400 |
| Api.ErrorResponse | backend/main.py:84-98 | corrected answer: 400 "Unsupported file type" exactly for an unsupported type, 500 with the error text for every other failure |
| Api.ParseUpload | backend/main.py:71-82 | a parser failure is reported as a parse failure with the parser's message; a PDF or SQL upload succeeds exactly when its parser succeeds and then gives the parser's text; a JSON upload succeeds exactly when decoding succeeds and then gives the flattened, space-joined text |
| Api.UploadText | backend/main.py:67-82 | the evidence text exists exactly when the extension is supported and its parser succeeds, and it is that parser's text |
| Api.UploadFailure | backend/main.py:67-87 | an upload fails as unsupported exactly when its extension selects no parser; it fails in parsing exactly when the type is supported and the parser fails, with the parser's error; it fails in analysis exactly when the text parsed and some statement does not classify, with the first classifier error |
| Api.UploadSucceeds | backend/main.py:67-87 | an upload has no failure exactly when its type is supported, its parser succeeds and every statement of the text classifies |
| Api.ResultStore.constructor | backend/main.py:39 | the store starts empty |
| Api.ResultStore.Results | backend/main.py:104-109 | a lookup succeeds exactly for a stored id and returns the stored analysis; any other id gives 404 "Not found" |
| Api.ResultStore.Upload | backend/main.py:66-95 | the upload succeeds exactly when `UploadFailure` reports nothing, and a failure reports what `UploadFailure` names and leaves the store unchanged; success returns the new id and stores, under that id only, the analysis of the parsed text with the source type its extension selects |
| Api.ResultStore.Analyze | backend/main.py:62-98 | as written: success exactly when the type is supported, the parser succeeds and every statement classifies; every failure, the unsupported type included, answers 500 with the error text and leaves the store unchanged, so an unsupported type answers 500 "400: Unsupported file type"; success stores the analysis under the new id only, and it can then be looked up while every other id looks up as before |
| Api.ResultStore.AnalyzeCorrected | backend/main.py:62-98 | corrected endpoint: the same successes and stored analyses as `Analyze`, but an unsupported type answers 400 "Unsupported file type" and every other failure 500 with its error text |
| Dashboard.Filtered | frontend/src/App.jsx:52-55 | every kept finding reaches the threshold, and the kept findings are a subsequence of the findings, never longer |
| Dashboard.FilteredMembers | frontend/src/App.jsx:53 | a finding is kept exactly when it is one of the findings and its confidence is at least the threshold |
| Dashboard.FilteredCounts | frontend/src/App.jsx:53 | every copy of a finding that reaches the threshold is kept and no copy of one below it, so multiplicities are preserved |
| Dashboard.FilteredKeepsAll | frontend/src/App.jsx:53 | a threshold that no finding is below keeps all of them, in order |
| Dashboard.FilteredMonotone | frontend/src/App.jsx:53 | raising the threshold keeps a subsequence of what the lower threshold kept |
| Dashboard.CountOf | frontend/src/App.jsx:60 | a count is at most the length, and is 0 exactly for an absent domain |
| Dashboard.DistinctInOrder | frontend/src/App.jsx:62 | the distinct domains are exactly the domains that occur |
| Dashboard.DistinctInOrderSnoc | frontend/src/App.jsx:59-62 | one more finding adds its domain at the end exactly when it is new |
| Dashboard.CountOfSnoc | frontend/src/App.jsx:60 | one more finding adds one to its own domain's count and nothing to the others |
| Dashboard.DistinctInOrderIsDistinct | frontend/src/App.jsx:62 | the chart's domain names are pairwise distinct |
| Dashboard.SumOfCountsSnoc | frontend/src/App.jsx:59-60 | one more finding adds one to the summed counts of distinct names exactly when its domain is among them |
| Dashboard.CountsAddUp | frontend/src/App.jsx:57-63 | the counts of the distinct domains add up to the number of findings |
| Dashboard.TotalIsSumOfCounts | frontend/src/App.jsx:62 | the total of the chart's values is the summed counts of its names |
| Dashboard.TallyStep | frontend/src/App.jsx:59-61 | one counting step (the domain's count, or 0, plus one) keeps the counts equal to the tally of the findings seen so far, with keys in first-seen order |
| Dashboard.EntriesOfCounts | frontend/src/App.jsx:62 | entries listed from complete counts have distinct names in first-seen order, each with its count (at least 1), and the values sum to the number of findings |
| Dashboard.ChartData | frontend/src/App.jsx:57-63 | one entry per distinct domain in first-seen order; each value is the number of findings of that domain and at least 1; names are distinct; the values sum to the number of filtered findings |

Functions that only compute, such as `JsonParser.Flatten`, `JsonParser.FlattenMembers`,
`JsonParser.FlattenItems`, `JsonParser.Str`, `JsonParser.Join`, `JsonParser.ParseJson`,
`Analyzer.SplitSentences`, `Analyzer.Segment`, `Reasoner.MatchedKeywords`,
`Reasoner.ControlBonus` and `Api.SourceTypeName`, carry no contract of their own; the rows
above that cite their lines name the lemmas that state what they compute.

## Left out

- The classifier (`backend/services/classifier.py:22-44`) is a function parameter that returns a domain, a score and a latency, or fails. The BART pipeline, its label file and its timing are not modelled. The model does not assume a bound on the score; fusion clamps in any case.
- `Analyzer.AnalyzeDocument`: the analysis id is a parameter, because `uuid.uuid4()` is randomness.
- `Analyzer.MakeFinding`: `round(..., 4)` and `round(..., 2)` on the scores are not modelled. Scores are exact reals.
- `Reasoner.BuildReasoning`: the reasoning string with its `:.3f` formatting is not modelled. The `Reasoning` datatype carries the values it reports.
- `Reasoner.KeywordDensity`: the density 1/12 of the worked example sentence is not proved, because the verifier does not unfold the tokenizer over the 72-character literal by itself. The fusion arithmetic of that example is proved in `Reasoner.FuseExamples`.
- `Text.Lower`: only ASCII letters are folded. Python's Unicode case mapping (for example of accented letters) is not modelled.
- `Reasoner.IsWordChar` is ASCII `\w` only, so non-ASCII letters do not count as word characters at a `\b`.
- General regular-expression semantics are not modelled. Only the six control patterns, the token class, the newline collapse and the sentence split are written out.
- The PDF and SQL parsers are function parameters, because `pdfplumber` and `sqlparse` are not part of this model.
- UTF-8 decoding and `json.loads` are one function parameter returning a `Json` value or an error.
- `JsonParser.Json`: an object is a list of members, and nothing keeps its keys distinct. `json.loads` gives distinct keys (a repeated key keeps its last value), so only objects with distinct keys stand for decoded documents.
- `JsonParser.Str`: a number's `str()` text stays abstract (the `JNumber` text). Float formatting is not modelled.
- `Api.ResultStore.Analyze`: the `timestamp` and `total_processing_ms` fields added before storing are not modelled, because they are clock readings. A missing file name (`None`) is not modelled: the file name is a string.
- FastAPI routing, CORS, the health route, `domains()` (a file read) and `model_info()` (a constant answer) are plumbing and I/O. They are not modelled.
- `Dashboard.ChartData`: JavaScript lists integer-like object keys before other keys in `Object.entries`. Keys inherited from `Object.prototype` (such as `constructor`) would also misbehave in the `counts` lookup. The model keeps plain insertion order, which is what domain labels get.
- The React state, the `fetch` calls, the rendering and the pie chart are UI and network, and are not modelled.

## Findings

| source | as written | input that shows it | evidently intended | confidence | as-written member | corrected member |
|---|---|---|---|---|---|---|
| backend/main.py:84-98 | the `HTTPException(status_code=400)` raised for an unsupported type is inside the `try` and is caught by `except Exception`, which re-raises it as status 500 with detail `str(e)` | a file named `evidence.txt` | answer 400 "Unsupported file type" and keep 500 for parser and analysis failures | not executed; high that the status is 500, medium for the exact detail text | Api.ErrorResponseAsWritten, Api.UnsupportedUploadAsWritten, Api.ResultStore.Analyze | Api.ErrorResponse, Api.ResultStore.AnalyzeCorrected |
