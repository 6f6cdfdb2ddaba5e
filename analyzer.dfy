/**
 * The document analyzer: segmentation of extracted text into evidence
 * statements (newline collapse, sentence split, strip and noise filter) and
 * the loop that turns each statement into one finding, with the semantic
 * classifier as a function parameter.
 */
module Analyzer {
  import opened Wrappers
  import opened Text
  import opened Reasoner

  // ------------------------------------------------------------------
  // Newline collapse
  // ------------------------------------------------------------------

  /** Length of the run of newlines that starts `s`. */
  function NewlineRun(s: string): (n: nat)
    ensures n <= |s|
    ensures forall i | 0 <= i < n :: s[i] == '\n'
    ensures n < |s| ==> s[n] != '\n'
  {
    if s == [] || s[0] != '\n' then 0 else 1 + NewlineRun(s[1..])
  }

  /**
   * Each run of newlines becomes one space; the result has no newline, is
   * never longer, and text without newlines is left as it is.
   */
  function CollapseNewlines(s: string): (r: string)
    ensures '\n' !in r
    ensures |r| <= |s|
    ensures '\n' !in s ==> r == s
    decreases |s|
  {
    if s == [] then []
    else if s[0] == '\n' then [' '] + CollapseNewlines(s[NewlineRun(s)..])
    else
      assert s == [s[0]] + s[1..];
      [s[0]] + CollapseNewlines(s[1..])
  }

  /** Collapsing twice is collapsing once. */
  lemma CollapseNewlinesIdempotent(s: string)
    ensures CollapseNewlines(CollapseNewlines(s)) == CollapseNewlines(s)
  {
  }

  /** `k` newlines. */
  function Newlines(k: nat): (r: string)
    ensures |r| == k && forall i | 0 <= i < k :: r[i] == '\n'
  {
    seq(k, _ => '\n')
  }

  /** A text that does not end in a newline collapses on its own, whatever follows it. */
  lemma {:induction false} CollapseNewlinesAppend(a: string, b: string)
    requires a == [] || a[|a| - 1] != '\n'
    ensures CollapseNewlines(a + b) == CollapseNewlines(a) + CollapseNewlines(b)
    decreases |a|
  {
    if a == [] {
      assert a + b == b;
    } else if a[0] == '\n' {
      var n := NewlineRun(a);
      NewlineRunPrefix(a, b);
      CollapseStep(a + b, n, [' ']);
      CollapseStep(a, n, [' ']);
      CollapseNewlinesAppendStep(a, b, n, [' ']);
    } else {
      CollapseStep(a + b, 1, [a[0]]);
      CollapseStep(a, 1, [a[0]]);
      CollapseNewlinesAppendStep(a, b, 1, [a[0]]);
    }
  }

  /** One step of the collapse: `head` for the first `n` characters, then the rest. */
  lemma CollapseStep(s: string, n: nat, head: string)
    requires s != []
    requires s[0] == '\n' ==> n == NewlineRun(s) && head == [' ']
    requires s[0] != '\n' ==> n == 1 && head == [s[0]]
    ensures n <= |s|
    ensures CollapseNewlines(s) == head + CollapseNewlines(s[n..])
  {
  }

  /** The induction step of `CollapseNewlinesAppend`, after the first step of both collapses. */
  lemma {:induction false} CollapseNewlinesAppendStep(a: string, b: string, n: nat, head: string)
    requires a != [] && (0 < n < |a| || (n == |a| && a[0] != '\n'))
    requires a[|a| - 1] != '\n'
    requires CollapseNewlines(a + b) == head + CollapseNewlines((a + b)[n..])
    requires CollapseNewlines(a) == head + CollapseNewlines(a[n..])
    ensures CollapseNewlines(a + b) == CollapseNewlines(a) + CollapseNewlines(b)
    decreases |a|, 0
  {
    SliceAppend(a, b, n);
    var rest := a[n..];
    assert rest == [] || rest[|rest| - 1] == a[|a| - 1];
    CollapseNewlinesAppend(rest, b);
    Regroup(CollapseNewlines(a + b), head, CollapseNewlines(rest + b),
            CollapseNewlines(rest), CollapseNewlines(b), CollapseNewlines(a));
  }

  /** Sequence algebra for the induction step, kept apart from the collapse terms. */
  lemma Regroup<T>(whole: seq<T>, head: seq<T>, tail: seq<T>, x: seq<T>, y: seq<T>, left: seq<T>)
    requires whole == head + tail && tail == x + y && left == head + x
    ensures whole == left + y
  {
  }

  /** The leading newline run of a text that ends in something else stops inside it. */
  lemma NewlineRunPrefix(a: string, b: string)
    requires a != [] && a[|a| - 1] != '\n'
    ensures NewlineRun(a + b) == NewlineRun(a)
  {
    var n, m := NewlineRun(a), NewlineRun(a + b);
    assert n < |a|;
    assert (a + b)[n] == a[n];
    if m < n {
      assert (a + b)[m] == a[m];
    }
  }

  /** A run of newlines followed by a text that does not start with one becomes one space. */
  /** A run of `k` newlines followed by a non-newline is a newline run of length `k`. */
  lemma {:induction false} NewlineRunOfNewlines(k: nat, b: string)
    requires b == [] || b[0] != '\n'
    ensures NewlineRun(Newlines(k) + b) == k
  {
    if k > 0 {
      var s := Newlines(k) + b;
      assert s[0] == '\n';
      assert s[1..] == Newlines(k - 1) + b;
      NewlineRunOfNewlines(k - 1, b);
    } else {
      assert Newlines(k) + b == b;
    }
  }

  lemma CollapseNewlineRun(k: nat, b: string)
    requires k >= 1 && (b == [] || b[0] != '\n')
    ensures CollapseNewlines(Newlines(k) + b) == " " + CollapseNewlines(b)
  {
    var s := Newlines(k) + b;
    NewlineRunOfNewlines(k, b);
    SliceAppend(Newlines(k), b, k);
  }

  /**
   * Each maximal run of newlines becomes exactly one space: between a text
   * that does not end in a newline and one that does not start with one,
   * `k` newlines collapse to " ".
   */
  lemma CollapseNewlinesBetween(a: string, k: nat, b: string)
    requires k >= 1
    requires a == [] || a[|a| - 1] != '\n'
    requires b == [] || b[0] != '\n'
    ensures CollapseNewlines(a + Newlines(k) + b) == CollapseNewlines(a) + " " + CollapseNewlines(b)
  {
    var nl := Newlines(k);
    Regroup(a + nl + b, a, nl + b, nl, b, a + nl);
    CollapseNewlinesAppend(a, nl + b);
    CollapseNewlineRun(k, b);
    var ca := CollapseNewlines(a);
    Regroup(CollapseNewlines(a + (nl + b)), ca, CollapseNewlines(nl + b), " ", CollapseNewlines(b), ca + " ");
  }

  // ------------------------------------------------------------------
  // Sentence split
  // ------------------------------------------------------------------

  /** Sentence-ending punctuation. */
  predicate IsPunct(c: char) {
    c == '.' || c == '!' || c == '?'
  }

  /** Position `i` of `s` starts whitespace right after `.`, `!` or `?`. */
  predicate IsCut(s: string, i: int) {
    0 < i < |s| && IsPunct(s[i - 1]) && IsSpace(s[i])
  }

  /** The first cut of `s` at or after `i`, or |s| when there is none. */
  function FirstCut(s: string, i: nat): (n: nat)
    requires i <= |s|
    ensures i <= n <= |s|
    ensures n < |s| ==> IsCut(s, n)
    ensures forall j | i <= j < n :: !IsCut(s, j)
    decreases |s| - i
  {
    if i == |s| then |s|
    else if IsCut(s, i) then i
    else FirstCut(s, i + 1)
  }

  /** The text the pieces and the separators between them spell out. */
  function Weave(pieces: seq<string>, gaps: seq<string>): string
    requires |pieces| == |gaps| + 1
    decreases |gaps|
  {
    if gaps == [] then pieces[0] else pieces[0] + gaps[0] + Weave(pieces[1..], gaps[1..])
  }

  /** A separator the split removes: a non-empty run of whitespace. */
  predicate IsGap(g: string) {
    g != [] && forall i | 0 <= i < |g| :: IsSpace(g[i])
  }

  /**
   * The sentence split, with the separators it removes: the first piece runs
   * up to the first cut, the separator takes the whole whitespace run there,
   * and the rest of the text is split the same way.
   */
  function SplitWithGaps(s: string): (r: (seq<string>, seq<string>))
    ensures |r.0| == |r.1| + 1
    decreases |s|
  {
    var n := FirstCut(s, 0);
    if n == |s| then
      ([s], [])
    else
      var m := n + LeadingSpaces(s[n..]);
      var rest := SplitWithGaps(s[m..]);
      ([s[..n]] + rest.0, [s[n..m]] + rest.1)
  }

  /** re.split(r'(?<=[.!?])\s+', s): the sentence-like pieces of `s`. */
  function SplitSentences(s: string): seq<string> {
    SplitWithGaps(s).0
  }

  /** The pieces, with the separators between them, spell the text back. */
  lemma {:induction false} SplitReassembles(s: string)
    ensures Weave(SplitWithGaps(s).0, SplitWithGaps(s).1) == s
    decreases |s|
  {
    var n := FirstCut(s, 0);
    if n < |s| {
      var m := n + LeadingSpaces(s[n..]);
      SplitReassembles(s[m..]);
      assert s == s[..n] + s[n..m] + s[m..];
    }
  }

  /** Each separator the split removes is a non-empty whitespace run. */
  lemma {:induction false} SplitGapsAreWhitespace(s: string)
    ensures forall k | 0 <= k < |SplitWithGaps(s).1| :: IsGap(SplitWithGaps(s).1[k])
    decreases |s|
  {
    var n := FirstCut(s, 0);
    if n < |s| {
      var m := n + LeadingSpaces(s[n..]);
      var rest := SplitWithGaps(s[m..]);
      SplitGapsAreWhitespace(s[m..]);
      assert SplitWithGaps(s).1 == [s[n..m]] + rest.1;
      assert IsGap(s[n..m]);
    }
  }

  /** Each piece but the last is non-empty and ends in `.`, `!` or `?`. */
  lemma {:induction false} SplitPiecesEndInPunct(s: string)
    ensures forall k | 0 <= k < |SplitWithGaps(s).0| - 1 ::
      SplitWithGaps(s).0[k] != [] && IsPunct(SplitWithGaps(s).0[k][|SplitWithGaps(s).0[k]| - 1])
    decreases |s|
  {
    var pieces := SplitWithGaps(s).0;
    var n := FirstCut(s, 0);
    if n < |s| {
      var m := n + LeadingSpaces(s[n..]);
      var later := SplitWithGaps(s[m..]).0;
      SplitPiecesEndInPunct(s[m..]);
      assert pieces == [s[..n]] + later;
      forall k | 0 <= k < |pieces| - 1 ensures pieces[k] != [] && IsPunct(pieces[k][|pieces[k]| - 1]) {
        if k == 0 {
          assert s[..n][n - 1] == s[n - 1];
        } else {
          assert pieces[k] == later[k - 1];
        }
      }
    }
  }

  /** No piece holds a further cut: the split cuts at every cut position. */
  lemma {:induction false} SplitPiecesHaveNoCut(s: string)
    ensures forall k, j | 0 <= k < |SplitSentences(s)| :: !IsCut(SplitSentences(s)[k], j)
    decreases |s|
  {
    var n := FirstCut(s, 0);
    if n < |s| {
      var m := n + LeadingSpaces(s[n..]);
      SplitPiecesHaveNoCut(s[m..]);
      var first := s[..n];
      assert forall j :: IsCut(first, j) ==> IsCut(s, j);
      assert SplitSentences(s) == [first] + SplitSentences(s[m..]);
    } else {
      assert SplitSentences(s) == [s];
    }
  }

  /** The first piece is a prefix of the text. */
  lemma SplitFirstPiece(s: string)
    ensures |SplitSentences(s)[0]| <= |s|
    ensures SplitSentences(s)[0] == s[..|SplitSentences(s)[0]|]
  {
  }

  /** No piece after the first starts with whitespace: each separator took the whole run. */
  lemma {:induction false} SplitPiecesStartClean(s: string)
    ensures forall k | 0 < k < |SplitSentences(s)| ::
      SplitSentences(s)[k] == [] || !IsSpace(SplitSentences(s)[k][0])
    decreases |s|
  {
    var n := FirstCut(s, 0);
    if n < |s| {
      var m := n + LeadingSpaces(s[n..]);
      var rest := s[m..];
      SplitPiecesStartClean(rest);
      SplitFirstPiece(rest);
      var p := SplitSentences(rest)[0];
      assert p != [] ==> p[0] == rest[0];
      assert SplitSentences(s) == [s[..n]] + SplitSentences(rest);
    }
  }

  /** Every character of a piece is a character of the text. */
  lemma {:induction false} SplitPiecesChars(s: string)
    ensures forall k, i | 0 <= k < |SplitSentences(s)| && 0 <= i < |SplitSentences(s)[k]| ::
      SplitSentences(s)[k][i] in s
    decreases |s|
  {
    var pieces := SplitSentences(s);
    var n := FirstCut(s, 0);
    if n < |s| {
      var m := n + LeadingSpaces(s[n..]);
      var rest := s[m..];
      var later := SplitSentences(rest);
      SplitPiecesChars(rest);
      assert pieces == [s[..n]] + later;
      forall k, i | 0 <= k < |pieces| && 0 <= i < |pieces[k]| ensures pieces[k][i] in s {
        if k == 0 {
          assert pieces[k][i] == s[i];
        } else {
          assert pieces[k] == later[k - 1];
          var c := later[k - 1][i];
          assert c in rest;
          var j :| 0 <= j < |rest| && rest[j] == c;
          assert s[m + j] == c;
        }
      }
    } else {
      assert pieces == [s];
    }
  }

  // ------------------------------------------------------------------
  // Strip and noise filter
  // ------------------------------------------------------------------

  /** Every line stripped. */
  function StripAll(lines: seq<string>): (r: seq<string>)
    ensures |r| == |lines|
    ensures forall k | 0 <= k < |lines| :: r[k] == Strip(lines[k])
  {
    seq(|lines|, k requires 0 <= k < |lines| => Strip(lines[k]))
  }

  /** Stripping a list of lines one more line long strips that line at the end. */
  lemma StripAllSnoc(lines: seq<string>)
    requires lines != []
    ensures StripAll(lines) == StripAll(lines[..|lines| - 1]) + [Strip(lines[|lines| - 1])]
  {
    var init := lines[..|lines| - 1];
    var r := StripAll(init) + [Strip(lines[|lines| - 1])];
    assert |r| == |lines|;
    forall k | 0 <= k < |lines| ensures StripAll(lines)[k] == r[k] {
      if k < |init| {
        assert lines[k] == init[k];
      }
    }
  }

  /** [l.strip() for l in lines if len(l.strip()) > 15] */
  function KeepStatements(lines: seq<string>): (r: seq<string>)
    ensures forall k | 0 <= k < |r| :: |r[k]| > 15 && IsStripped(r[k])
  {
    if lines == [] then []
    else
      var r := KeepStatements(lines[..|lines| - 1]);
      var last := Strip(lines[|lines| - 1]);
      if |last| > 15 then r + [last] else r
  }

  /** The kept statements are the stripped lines, in order, with some left out. */
  lemma {:induction false} KeepStatementsSubseq(lines: seq<string>)
    ensures IsSubseq(KeepStatements(lines), StripAll(lines))
  {
    if lines != [] {
      var init := lines[..|lines| - 1];
      var last := Strip(lines[|lines| - 1]);
      KeepStatementsSubseq(init);
      assert StripAll(lines) == StripAll(init) + [last];
      if |last| <= 15 {
        SubseqDropLast(KeepStatements(init), StripAll(lines));
      }
    }
  }

  /** Only the lines that strip to 15 characters or fewer are left out. */
  lemma {:induction false} KeepStatementsComplete(lines: seq<string>)
    ensures forall k | 0 <= k < |lines| :: |Strip(lines[k])| > 15 ==> Strip(lines[k]) in KeepStatements(lines)
  {
    if lines != [] {
      var init := lines[..|lines| - 1];
      KeepStatementsComplete(init);
      forall k | 0 <= k < |lines| && |Strip(lines[k])| > 15 ensures Strip(lines[k]) in KeepStatements(lines) {
        if k < |init| {
          assert lines[k] == init[k];
        }
      }
    }
  }

  /**
   * Every copy of a stripped line longer than 15 characters is kept, and
   * no copy of a shorter one.
   */
  lemma {:induction false} KeepStatementsCounts(lines: seq<string>, x: string)
    ensures multiset(KeepStatements(lines))[x] == if |x| > 15 then multiset(StripAll(lines))[x] else 0
  {
    if lines != [] {
      var init := lines[..|lines| - 1];
      var last := Strip(lines[|lines| - 1]);
      KeepStatementsCounts(init, x);
      var all, kept := StripAll(init), KeepStatements(init);
      StripAllSnoc(lines);
      CountSnoc(all, last, x);
      if |last| > 15 {
        CountSnoc(kept, last, x);
      }
    }
  }

  /** Appending one element adds one to its count and leaves the others. */
  lemma CountSnoc<T>(xs: seq<T>, y: T, x: T)
    ensures multiset(xs + [y])[x] == multiset(xs)[x] + if x == y then 1 else 0
  {
    assert multiset(xs + [y]) == multiset(xs) + multiset{y};
  }

  /** Lines that all strip to 15 characters or fewer keep nothing. */
  lemma {:induction false} KeepStatementsNone(lines: seq<string>)
    requires forall k | 0 <= k < |lines| :: |Strip(lines[k])| <= 15
    ensures KeepStatements(lines) == []
  {
    if lines != [] {
      var init := lines[..|lines| - 1];
      assert forall k | 0 <= k < |init| :: init[k] == lines[k];
      KeepStatementsNone(init);
    }
  }

  /** Nothing is kept exactly when every line strips to 15 characters or fewer. */
  lemma KeepStatementsEmpty(lines: seq<string>)
    ensures KeepStatements(lines) == [] <==> forall k | 0 <= k < |lines| :: |Strip(lines[k])| <= 15
  {
    if forall k | 0 <= k < |lines| :: |Strip(lines[k])| <= 15 {
      KeepStatementsNone(lines);
    } else {
      KeepStatementsComplete(lines);
    }
  }

  /** analyze_document's segmentation: newline collapse, sentence split, strip and filter. */
  function Segment(text: string): seq<string> {
    KeepStatements(SplitSentences(CollapseNewlines(text)))
  }

  /** Every statement is stripped, longer than 15 characters and free of newlines. */
  lemma SegmentStatements(text: string)
    ensures forall k | 0 <= k < |Segment(text)| ::
      |Segment(text)[k]| > 15 && IsStripped(Segment(text)[k]) && '\n' !in Segment(text)[k]
  {
    var clean := CollapseNewlines(text);
    var pieces := SplitSentences(clean);
    var segs := KeepStatements(pieces);
    KeepStatementsSubseq(pieces);
    SplitPiecesChars(clean);
    SubseqElements(segs, StripAll(pieces));
    forall k | 0 <= k < |segs| ensures '\n' !in segs[k] {
      assert segs[k] in StripAll(pieces);
      var j :| 0 <= j < |pieces| && segs[k] == Strip(pieces[j]);
      NoNewlineInPiece(clean, pieces[j], segs[k]);
    }
  }

  lemma NoNewlineInPiece(clean: string, piece: string, seg: string)
    requires '\n' !in clean
    requires forall i | 0 <= i < |piece| :: piece[i] in clean
    requires seg == Strip(piece)
    ensures '\n' !in seg
  {
  }

  /** Empty input gives no statements. */
  lemma SegmentEmpty()
    ensures Segment("") == []
  {
    assert SplitWithGaps("") == ([""], []);
  }

  // ------------------------------------------------------------------
  // Findings
  // ------------------------------------------------------------------

  /** What the classifier returns for one statement. */
  datatype Classification = Classification(domain: string, score: real, inferenceMs: real)

  /** One finding per statement; the rounding of the scores is not modelled. */
  datatype Finding = Finding(
    sourceText: string,
    identifiedControl: string,
    nis2Domain: string,
    confidence: real,
    reasoning: Reasoning,
    modelScore: real,
    inferenceMs: real,
    sourceType: string)

  /** The analysis of one document. */
  datatype Analysis = Analysis(analysisId: string, findings: seq<Finding>, modelType: string, modelName: string)

  const ModelType := "bart-zero-shot"
  const ModelName := "facebook/bart-large-mnli"

  /** The finding for statement `line`, classified as `c`, from a source of type `sourceType`. */
  function FindingOf(line: string, c: Classification, sourceType: string): (f: Finding)
    ensures 0.0 <= f.confidence <= 1.0
  {
    var reasoning := ReasoningOf(line, c.domain, c.score);
    Finding(line, DetectControl(line), c.domain, reasoning.finalConf, reasoning, c.score, c.inferenceMs, sourceType)
  }

  /**
   * A finding reports its statement, the control detected in it, the
   * classifier's domain, score and latency, and the caller's source type; its
   * confidence fuses the score with the statement's density and a bonus for a
   * detected control, and its explanation lists at most six keywords.
   */
  lemma FindingFields(line: string, c: Classification, sourceType: string)
    ensures var f := FindingOf(line, c, sourceType);
      && f.sourceText == line
      && f.identifiedControl == DetectControl(line)
      && f.nis2Domain == c.domain
      && f.modelScore == c.score
      && f.inferenceMs == c.inferenceMs
      && f.sourceType == sourceType
      && f.confidence == Fuse(c.score, KeywordDensity(line, c.domain), if f.identifiedControl == Sentinel then 0.0 else 1.0)
      && f.confidence == f.reasoning.finalConf
      && f.reasoning.matched == MatchedKeywords(line, c.domain)
      && |f.reasoning.matched| <= 6
  {
  }

  /** The body of the findings loop: classify result `c` of `line` turned into its finding. */
  method MakeFinding(line: string, c: Classification, sourceType: string) returns (f: Finding)
    ensures f == FindingOf(line, c, sourceType)
  {
    var finalConf, reasoning := BuildReasoning(line, c.domain, c.score);
    var control := DetectControl(line);
    f := Finding(line, control, c.domain, finalConf, reasoning, c.score, c.inferenceMs, sourceType);
  }

  /**
   * The findings loop: one finding per statement, in order. A classifier
   * failure on any statement fails the whole analysis with the first
   * failure's error.
   */
  method AnalyzeStatements(lines: seq<string>, sourceType: string,
                           classify: string -> Result<Classification, string>)
    returns (r: Result<seq<Finding>, string>)
    ensures r.Success? <==> forall k | 0 <= k < |lines| :: classify(lines[k]).Success?
    ensures r.Failure? ==>
      exists k | 0 <= k < |lines| ::
        && classify(lines[k]) == Failure(r.error)
        && forall j | 0 <= j < k :: classify(lines[j]).Success?
    ensures r.Failure? ==> FirstFailure(lines, classify) == Some(r.error)
    ensures r.Success? ==>
      && |r.value| == |lines|
      && forall k | 0 <= k < |lines| :: r.value[k] == FindingOf(lines[k], classify(lines[k]).value, sourceType)
  {
    ghost var spec := FindingSpec(classify, sourceType);
    var findings: seq<Finding> := [];
    var i := 0;
    while i < |lines|
      invariant 0 <= i <= |lines|
      invariant |findings| == i
      invariant MapsPrefix(findings, lines, spec)
    {
      var result := classify(lines[i]);
      if result.Failure? {
        AllSomePrefix(findings, lines, spec);
        FirstFailureAt(lines, classify, i);
        return Failure(result.error);
      }
      var f := MakeFinding(lines[i], result.value, sourceType);
      assert spec(lines[i]) == Some(f);
      MapsPrefixSnoc(findings, lines, spec, f);
      findings := findings + [f];
      i := i + 1;
    }
    forall k | 0 <= k < |lines|
      ensures classify(lines[k]).Success? && findings[k] == FindingOf(lines[k], classify(lines[k]).value, sourceType)
    {
      assert spec(lines[k]) == Some(findings[k]);
    }
    return Success(findings);
  }

  /** The error of the first statement the classifier fails on, if any. */
  function FirstFailure(lines: seq<string>, classify: string -> Result<Classification, string>): (r: Option<string>)
    ensures r.None? <==> forall k | 0 <= k < |lines| :: classify(lines[k]).Success?
  {
    if lines == [] then None
    else if classify(lines[0]).Failure? then Some(classify(lines[0]).error)
    else
      assert forall k | 1 <= k < |lines| :: lines[k] == lines[1..][k - 1];
      FirstFailure(lines[1..], classify)
  }

  /** The first failing statement is the one whose error `FirstFailure` reports. */
  lemma {:induction false} FirstFailureAt(lines: seq<string>, classify: string -> Result<Classification, string>, k: nat)
    requires k < |lines| && classify(lines[k]).Failure?
    requires forall j | 0 <= j < k :: classify(lines[j]).Success?
    ensures FirstFailure(lines, classify) == Some(classify(lines[k]).error)
  {
    if k > 0 {
      var rest := lines[1..];
      assert rest[k - 1] == lines[k];
      assert forall j | 0 <= j < k - 1 :: rest[j] == lines[j + 1];
      FirstFailureAt(rest, classify, k - 1);
    }
  }

  /** `ys` holds, in order, what `spec` gives for each of the first |ys| elements of `xs`. */
  ghost predicate MapsPrefix<X, Y>(ys: seq<Y>, xs: seq<X>, spec: X -> Option<Y>) {
    && |ys| <= |xs|
    && forall k | 0 <= k < |ys| :: spec(xs[k]) == Some(ys[k])
  }

  /** The result for the next element extends the results so far. */
  lemma MapsPrefixSnoc<X, Y>(ys: seq<Y>, xs: seq<X>, spec: X -> Option<Y>, y: Y)
    requires MapsPrefix(ys, xs, spec) && |ys| < |xs|
    requires spec(xs[|ys|]) == Some(y)
    ensures MapsPrefix(ys + [y], xs, spec)
  {
    var ys' := ys + [y];
    forall k | 0 <= k < |ys'| ensures spec(xs[k]) == Some(ys'[k]) {
      if k < |ys| {
        assert ys'[k] == ys[k];
      }
    }
  }

  /** Every element of the prefix has a result. */
  lemma AllSomePrefix<X, Y>(ys: seq<Y>, xs: seq<X>, spec: X -> Option<Y>)
    requires MapsPrefix(ys, xs, spec)
    ensures forall j | 0 <= j < |ys| :: spec(xs[j]).Some?
  {
  }

  /**
   * `a` is the analysis `analysisId` of `text`: one finding per statement of
   * the segmentation, in order, each from the statement's classification
   * (spelled out per finding by `AnalysisFindings`).
   */
  ghost predicate IsAnalysisFor(a: Analysis, text: string, sourceType: string, analysisId: string,
                          classify: string -> Result<Classification, string>)
  {
    var lines := Segment(text);
    && a.analysisId == analysisId
    && a.modelType == ModelType
    && a.modelName == ModelName
    && |a.findings| == |lines|
    && MapsPrefix(a.findings, lines, FindingSpec(classify, sourceType))
  }

  /** The finding of a statement, or none when the classifier fails on it. */
  function FindingSpec(classify: string -> Result<Classification, string>, sourceType: string): string -> Option<Finding> {
    l => if classify(l).Success? then Some(FindingOf(l, classify(l).value, sourceType)) else None
  }

  /** Each finding of an analysis is the finding of its statement, whose classification succeeded. */
  lemma AnalysisFindings(a: Analysis, text: string, sourceType: string, analysisId: string,
                         classify: string -> Result<Classification, string>)
    requires IsAnalysisFor(a, text, sourceType, analysisId, classify)
    ensures |a.findings| == |Segment(text)|
    ensures forall k | 0 <= k < |Segment(text)| ::
      && classify(Segment(text)[k]).Success?
      && a.findings[k] == FindingOf(Segment(text)[k], classify(Segment(text)[k]).value, sourceType)
  {
    var lines := Segment(text);
    forall k | 0 <= k < |lines|
      ensures classify(lines[k]).Success? && a.findings[k] == FindingOf(lines[k], classify(lines[k]).value, sourceType)
    {
      assert FindingSpec(classify, sourceType)(lines[k]) == Some(a.findings[k]);
    }
  }

  /**
   * analyze_document: the findings of the statements of the segmentation,
   * with the analysis id and the model metadata; a classifier failure fails
   * the whole analysis.
   */
  method AnalyzeDocument(text: string, sourceType: string, analysisId: string,
                         classify: string -> Result<Classification, string>)
    returns (r: Result<Analysis, string>)
    ensures r.Success? <==> forall k | 0 <= k < |Segment(text)| :: classify(Segment(text)[k]).Success?
    ensures r.Failure? ==>
      exists k | 0 <= k < |Segment(text)| ::
        && classify(Segment(text)[k]) == Failure(r.error)
        && forall j | 0 <= j < k :: classify(Segment(text)[j]).Success?
    ensures r.Failure? ==> FirstFailure(Segment(text), classify) == Some(r.error)
    ensures r.Success? ==> IsAnalysisFor(r.value, text, sourceType, analysisId, classify)
  {
    var lines := Segment(text);
    var findings := AnalyzeStatements(lines, sourceType, classify);
    match findings
    case Failure(e) => r := Failure(e);
    case Success(fs) => r := Success(Analysis(analysisId, fs, ModelType, ModelName));
  }
}
