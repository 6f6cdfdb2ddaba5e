/**
 * The confidence-fusion engine of the backend's reasoner: keyword density of
 * a statement against its domain's keyword list, first-match detection of a
 * control category by an ordered list of word-boundary patterns, the blend of
 * the classifier's score with both signals, and the matched-keyword list that
 * explains the score.
 */
module Reasoner {
  import opened Text

  /** The label detection falls back to when no control pattern matches. */
  const Sentinel := "General NIS2 Control"

  /** Each domain's keywords, in definition order. */
  const DomainKeywords: map<string, seq<string>> := map[
    "Incident Handling" :=
      ["log", "logging", "monitor", "alert", "incident", "breach", "response", "siem", "forensic"],
    "Risk Assessment" :=
      ["vulnerability", "scan", "cve", "risk", "threat", "assessment", "remediation", "patch", "pentest"],
    "Supply Chain Security" :=
      ["vendor", "supplier", "third-party", "contract", "due diligence", "outsourcing", "sbom", "procurement"],
    "Network & Information System Security" :=
      ["encryption", "tls", "aes", "access", "iam", "mfa", "authentication", "authorization", "hardening", "segmentation"]
  ]

  /** The keyword list of `domain`; a domain without an entry has none. */
  function KeywordsOf(domain: string): seq<string> {
    if domain in DomainKeywords then DomainKeywords[domain] else []
  }

  // ------------------------------------------------------------------
  // Keyword density
  // ------------------------------------------------------------------

  /** A character of the token class `[a-zA-Z0-9_-]`. */
  predicate IsTokenChar(c: char) {
    'a' <= c <= 'z' || 'A' <= c <= 'Z' || '0' <= c <= '9' || c == '_' || c == '-'
  }

  /** Length of the run of token characters that starts `s`. */
  function TokenRun(s: string): (n: nat)
    ensures n <= |s|
    ensures forall i | 0 <= i < n :: IsTokenChar(s[i])
    ensures n < |s| ==> !IsTokenChar(s[n])
  {
    if s == [] || !IsTokenChar(s[0]) then 0 else 1 + TokenRun(s[1..])
  }

  /** A non-empty string made of token characters only. */
  predicate IsToken(w: string) {
    w != [] && forall i | 0 <= i < |w| :: IsTokenChar(w[i])
  }

  /** The maximal runs of token characters of `s`, left to right (re.findall of the token class). */
  function Tokens(s: string): (ws: seq<string>)
    ensures forall k | 0 <= k < |ws| :: IsToken(ws[k])
    decreases |s|
  {
    if s == [] then []
    else if !IsTokenChar(s[0]) then Tokens(s[1..])
    else
      var n := TokenRun(s);
      [s[..n]] + Tokens(s[n..])
  }

  /** One more character extends the leading run only when the whole text is a run. */
  lemma {:induction false} TokenRunSnoc(s: string, c: char)
    ensures TokenRun(s + [c]) ==
      if TokenRun(s) < |s| then TokenRun(s) else if IsTokenChar(c) then |s| + 1 else |s|
    decreases |s|
  {
    if s != [] && IsTokenChar(s[0]) {
      assert (s + [c])[1..] == s[1..] + [c];
      TokenRunSnoc(s[1..], c);
    }
  }

  /** There are no tokens exactly when the text has no token character. */
  lemma {:induction false} TokensEmpty(s: string)
    ensures Tokens(s) == [] <==> forall i | 0 <= i < |s| :: !IsTokenChar(s[i])
    decreases |s|
  {
    if s != [] && !IsTokenChar(s[0]) {
      TokensEmpty(s[1..]);
      assert forall i | 1 <= i < |s| :: s[i] == s[1..][i - 1];
    }
  }

  // Tokens are the maximal runs, read left to right: the three lemmas below
  // say what one more character does to them.

  /** A non-token character adds nothing. */
  lemma {:induction false} TokensSnocGap(s: string, c: char)
    requires !IsTokenChar(c)
    ensures Tokens(s + [c]) == Tokens(s)
    decreases |s|
  {
    var t := s + [c];
    if s == [] {
      assert t[1..] == [];
    } else if !IsTokenChar(s[0]) {
      assert t[1..] == s[1..] + [c];
      TokensSnocGap(s[1..], c);
    } else {
      var n := TokenRun(s);
      TokenRunSnoc(s, c);
      assert t[..n] == s[..n] && t[n..] == s[n..] + [c];
      TokensSnocGap(s[n..], c);
    }
  }

  /** A token character at the start or after a non-token character opens a new token. */
  lemma {:induction false} TokensSnocOpen(s: string, c: char)
    requires IsTokenChar(c) && (s == [] || !IsTokenChar(s[|s| - 1]))
    ensures Tokens(s + [c]) == Tokens(s) + [[c]]
    decreases |s|
  {
    var t := s + [c];
    if s == [] {
      assert TokenRun(t) == 1;
      assert t[..1] == [c] && t[1..] == [];
    } else if !IsTokenChar(s[0]) {
      assert t[1..] == s[1..] + [c];
      assert s[1..] == [] || s[1..][|s[1..]| - 1] == s[|s| - 1];
      TokensSnocOpen(s[1..], c);
    } else {
      var n := TokenRun(s);
      TokenRunSnoc(s, c);
      var rest := s[n..];
      assert t[..n] == s[..n] && t[n..] == rest + [c];
      assert rest[|rest| - 1] == s[|s| - 1];
      TokensSnocOpen(rest, c);
    }
  }

  /** A token character after a token character extends the last token. */
  lemma {:induction false} TokensSnocExtend(s: string, c: char)
    requires IsTokenChar(c) && s != [] && IsTokenChar(s[|s| - 1])
    ensures Tokens(s) != []
    ensures Tokens(s + [c]) == Tokens(s)[..|Tokens(s)| - 1] + [Tokens(s)[|Tokens(s)| - 1] + [c]]
    decreases |s|
  {
    if !IsTokenChar(s[0]) {
      assert s[1..][|s[1..]| - 1] == s[|s| - 1];
      TokensSnocExtend(s[1..], c);
      TokensSkip(s, c);
    } else if TokenRun(s) < |s| {
      var n := TokenRun(s);
      var rest := s[n..];
      assert rest[|rest| - 1] == s[|s| - 1];
      TokensSnocExtend(rest, c);
      TokensAfterRun(s, c);
      ConsLast(s[..n], Tokens(rest));
    } else {
      TokenRunSnoc(s, c);
      TokensOfRun(s);
      TokensOfRun(s + [c]);
    }
  }

  /** A leading non-token character is skipped, with or without one more character. */
  lemma TokensSkip(s: string, c: char)
    requires s != [] && !IsTokenChar(s[0])
    ensures Tokens(s) == Tokens(s[1..])
    ensures Tokens(s + [c]) == Tokens(s[1..] + [c])
  {
    assert (s + [c])[1..] == s[1..] + [c];
  }

  /** When the leading run ends before the last character, one more character only touches the rest. */
  lemma TokensAfterRun(s: string, c: char)
    requires s != [] && IsTokenChar(s[0]) && TokenRun(s) < |s|
    ensures Tokens(s) == [s[..TokenRun(s)]] + Tokens(s[TokenRun(s)..])
    ensures Tokens(s + [c]) == [s[..TokenRun(s)]] + Tokens(s[TokenRun(s)..] + [c])
  {
    TokenRunSnoc(s, c);
    SliceAppend(s, [c], TokenRun(s));
  }

  /** A text made of token characters only is one token. */
  lemma TokensOfRun(s: string)
    requires s != [] && TokenRun(s) == |s|
    ensures Tokens(s) == [s]
  {
    assert s[..|s|] == s && s[|s|..] == [];
  }

  /** Number of entries of `words` that are in `kws`, repeated entries counted each time. */
  function Hits(words: seq<string>, kws: set<string>): (n: nat)
    ensures n <= |words|
  {
    if words == [] then 0
    else Hits(words[..|words| - 1], kws) + (if words[|words| - 1] in kws then 1 else 0)
  }

  /** The positions of `words` that hold a keyword. */
  ghost function HitPositions(words: seq<string>, kws: set<string>): set<nat> {
    set i: nat | i < |words| && words[i] in kws
  }

  /** The lower-cased keyword set of `domain`. */
  function KeywordSet(domain: string): set<string> {
    set k | k in KeywordsOf(domain) :: Lower(k)
  }

  function Min(a: real, b: real): real { if a <= b then a else b }

  function Max(a: real, b: real): real { if a <= b then b else a }

  /** Share of `words` that are keywords, capped at 1; no words give 0. */
  function Density(words: seq<string>, kws: set<string>): (kd: real)
    ensures 0.0 <= kd <= 1.0
    ensures words == [] ==> kd == 0.0
    ensures words != [] ==> kd * |words| as real == Hits(words, kws) as real
  {
    if words == [] then 0.0
    else
      var h, n := Hits(words, kws) as real, Max(1.0, |words| as real);
      var q := h / n;
      assert q * n == h;
      assert q <= 1.0;
      Min(1.0, q)
  }

  /** keyword_density: density of the statement's tokens against the domain's keywords. */
  function KeywordDensity(text: string, domain: string): (kd: real)
    ensures 0.0 <= kd <= 1.0
    ensures (forall i | 0 <= i < |text| :: !IsTokenChar(Lower(text)[i])) ==> kd == 0.0
    ensures domain !in DomainKeywords ==> kd == 0.0
  {
    var words := Tokens(Lower(text));
    TokensEmpty(Lower(text));
    assert domain !in DomainKeywords ==> KeywordSet(domain) == {};
    HitsNoKeywords(words, KeywordSet(domain));
    Density(words, KeywordSet(domain))
  }

  lemma {:induction false} HitsNoKeywords(words: seq<string>, kws: set<string>)
    ensures kws == {} ==> Hits(words, kws) == 0
  {
    if words != [] {
      HitsNoKeywords(words[..|words| - 1], kws);
    }
  }

  /** Hits counts exactly the positions that hold a keyword. */
  lemma {:induction false} HitsCountPositions(words: seq<string>, kws: set<string>)
    ensures Hits(words, kws) == |HitPositions(words, kws)|
  {
    if words == [] {
      assert HitPositions(words, kws) == {};
    } else {
      var init := words[..|words| - 1];
      HitsCountPositions(init, kws);
      var last: nat := |init|;
      if words[last] in kws {
        assert HitPositions(words, kws) == HitPositions(init, kws) + {last};
        assert last !in HitPositions(init, kws);
      } else {
        assert HitPositions(words, kws) == HitPositions(init, kws);
      }
    }
  }

  /** Hits over a concatenation adds up, so a repeated keyword counts once per occurrence. */
  lemma {:induction false} HitsAppend(a: seq<string>, b: seq<string>, kws: set<string>)
    ensures Hits(a + b, kws) == Hits(a, kws) + Hits(b, kws)
    decreases |b|
  {
    if b == [] {
      assert a + b == a;
    } else {
      var b' := b[..|b| - 1];
      HitsAppend(a, b', kws);
      assert (a + b)[..|a + b| - 1] == a + b';
    }
  }

  /**
   * The density of a non-empty token list is its number of keyword-holding
   * positions over its length.
   */
  lemma DensityCountsOccurrences(words: seq<string>, kws: set<string>)
    requires words != []
    ensures Density(words, kws) * |words| as real == |HitPositions(words, kws)| as real
  {
    HitsCountPositions(words, kws);
  }

  /** A keyword holding a character outside the token class never matches a token. */
  lemma {:induction false} NonTokenKeywordNeverHits(words: seq<string>, kws: set<string>, k: string)
    requires forall j | 0 <= j < |words| :: IsToken(words[j])
    requires exists i | 0 <= i < |k| :: !IsTokenChar(k[i])
    ensures Hits(words, kws) == Hits(words, kws - {k})
  {
    if words != [] {
      NonTokenKeywordNeverHits(words[..|words| - 1], kws, k);
      assert words[|words| - 1] != k by {
        assert IsToken(words[|words| - 1]);
      }
    }
  }

  /** The multi-word keyword "due diligence" contributes nothing to any statement's density. */
  lemma DueDiligenceNeverCounts(text: string)
    ensures KeywordDensity(text, "Supply Chain Security")
         == Density(Tokens(Lower(text)), KeywordSet("Supply Chain Security") - {"due diligence"})
  {
    var k := "due diligence";
    assert !IsTokenChar(k[3]);
    NonTokenKeywordNeverHits(Tokens(Lower(text)), KeywordSet("Supply Chain Security"), k);
  }

  // ------------------------------------------------------------------
  // Control detection
  // ------------------------------------------------------------------

  /** One alternative of a control pattern: `\b lit`, or `\b lit \b` when `wholeWord`. */
  datatype Alternative = Alternative(lit: string, wholeWord: bool)

  /** A control pattern matches when one of its alternatives does. */
  type Pattern = seq<Alternative>

  /** A character of the regex class `\w`. */
  predicate IsWordChar(c: char) {
    'a' <= c <= 'z' || 'A' <= c <= 'Z' || '0' <= c <= '9' || c == '_'
  }

  /** `\b` at position `i` of `t`: exactly one of the characters around it is a word character. */
  predicate AtWordBoundary(t: string, i: int) {
    (0 < i <= |t| && IsWordChar(t[i - 1])) != (0 <= i < |t| && IsWordChar(t[i]))
  }

  /** Alternative `a` matches `t` starting at position `i`. */
  predicate AltMatchesAt(t: string, a: Alternative, i: int) {
    && OccursAt(a.lit, t, i)
    && AtWordBoundary(t, i)
    && (a.wholeWord ==> AtWordBoundary(t, i + |a.lit|))
  }

  /** An unanchored search for `p` finds a match somewhere in `t`. */
  predicate Searches(t: string, p: Pattern) {
    exists k, i | 0 <= k < |p| && 0 <= i <= |t| :: AltMatchesAt(t, p[k], i)
  }

  /** The ordered control patterns with their labels; the earliest match wins. */
  const ControlPatterns: seq<(Pattern, string)> := [
    ([Alternative("mfa", true), Alternative("2fa", true)],
     "Multi-Factor Authentication (MFA)"),
    ([Alternative("encrypt", false), Alternative("tls", true), Alternative("aes", true),
      Alternative("key management", true)],
     "Encryption / Cryptographic Protection"),
    ([Alternative("log", true), Alternative("logging", true), Alternative("monitor", true),
      Alternative("siem", true), Alternative("audit", true)],
     "Audit Logging & Monitoring"),
    ([Alternative("vulnerab", false), Alternative("cve", true), Alternative("scan", true),
      Alternative("patch", true)],
     "Vulnerability Management"),
    ([Alternative("vendor", true), Alternative("supplier", true), Alternative("third-party", true),
      Alternative("third party", true), Alternative("sbom", true)],
     "Third-Party / Supply Chain Controls"),
    ([Alternative("access control", true), Alternative("iam", true), Alternative("role", true),
      Alternative("permission", true)],
     "Access Control / IAM")
  ]

  /** Index of the first pattern of `pats` that `t` matches, or |pats| when none does. */
  function FirstMatch(t: string, pats: seq<(Pattern, string)>): (k: nat)
    ensures k <= |pats|
    ensures k < |pats| ==> Searches(t, pats[k].0)
    ensures forall j | 0 <= j < k :: !Searches(t, pats[j].0)
  {
    if pats == [] then 0
    else if Searches(t, pats[0].0) then 0
    else 1 + FirstMatch(t, pats[1..])
  }

  /**
   * detect_control: the label of the earliest-listed pattern the lower-cased
   * text matches, or the sentinel label exactly when no pattern matches.
   */
  function DetectControl(text: string): (control: string)
    ensures control == Sentinel
        <==> forall k | 0 <= k < |ControlPatterns| :: !Searches(Lower(text), ControlPatterns[k].0)
    ensures control != Sentinel ==>
      exists k | 0 <= k < |ControlPatterns| ::
        && control == ControlPatterns[k].1
        && Searches(Lower(text), ControlPatterns[k].0)
        && forall j | 0 <= j < k :: !Searches(Lower(text), ControlPatterns[j].0)
  {
    var k := FirstMatch(Lower(text), ControlPatterns);
    if k < |ControlPatterns| then ControlPatterns[k].1 else Sentinel
  }

  /**
   * The two tables: four domains with keyword lists, and six control
   * patterns whose labels are distinct and never the sentinel.
   */
  lemma Tables()
    ensures DomainKeywords.Keys == {"Incident Handling", "Risk Assessment", "Supply Chain Security",
                                    "Network & Information System Security"}
    ensures |ControlPatterns| == 6
    ensures forall k | 0 <= k < |ControlPatterns| :: ControlPatterns[k].1 != Sentinel && ControlPatterns[k].0 != []
    ensures forall i, j | 0 <= i < j < |ControlPatterns| :: ControlPatterns[i].1 != ControlPatterns[j].1
  {
  }

  /** Detection does not depend on letter case. */
  lemma DetectControlIgnoresCase(text: string)
    ensures DetectControl(Lower(text)) == DetectControl(text)
  {
    LowerIdempotent(text);
  }

  /** A statement naming both MFA and role-based permissions gets the MFA label, listed first. */
  lemma MfaOutranksAccessControl()
    ensures DetectControl("Access requires MFA and role-based permission checks.")
         == "Multi-Factor Authentication (MFA)"
  {
    var t := Lower("Access requires MFA and role-based permission checks.");
    assert t[15] == ' ' && t[16] == 'm' && t[17] == 'f' && t[18] == 'a' && t[19] == ' ';
    assert t[16..19] == "mfa";
    assert AltMatchesAt(t, ControlPatterns[0].0[0], 16);
    assert Searches(t, ControlPatterns[0].0);
  }

  // ------------------------------------------------------------------
  // Confidence fusion and explanation
  // ------------------------------------------------------------------

  /** 1.0 when a control was detected, 0.0 for the sentinel. */
  function ControlBonus(control: string): real {
    if control != Sentinel then 1.0 else 0.0
  }

  /**
   * The bonus of a statement is 1.0 exactly when one of the control
   * patterns matches its lower-cased text, and 0.0 otherwise.
   */
  lemma ControlBonusOfText(text: string)
    ensures ControlBonus(DetectControl(text)) == 1.0
        <==> exists k | 0 <= k < |ControlPatterns| :: Searches(Lower(text), ControlPatterns[k].0)
    ensures ControlBonus(DetectControl(text)) != 1.0 ==> ControlBonus(DetectControl(text)) == 0.0
  {
    var control := DetectControl(text);
    if control == Sentinel {
      assert forall k | 0 <= k < |ControlPatterns| :: !Searches(Lower(text), ControlPatterns[k].0);
    }
  }

  /**
   * The fused confidence: 0.6 of the model score, 0.25 of the keyword
   * density and 0.15 of the control bonus, plus 0.1 when the model score
   * exceeds 0.75, clamped to [0, 1].
   */
  function Fuse(bart: real, kd: real, bonus: real): (conf: real)
    ensures 0.0 <= conf <= 1.0
  {
    var base := 0.6 * bart + 0.25 * kd + 0.15 * bonus;
    Max(0.0, Min(1.0, if bart > 0.75 then base + 0.1 else base))
  }

  /** A higher model score, density or bonus never lowers the fused confidence. */
  lemma FuseMonotone(b1: real, kd1: real, bonus1: real, b2: real, kd2: real, bonus2: real)
    requires b1 <= b2 && kd1 <= kd2 && bonus1 <= bonus2
    ensures Fuse(b1, kd1, bonus1) <= Fuse(b2, kd2, bonus2)
  {
  }

  /**
   * Worked values: a 0.9 model score with density 1/12 and a detected control
   * fuses to 0.54 + 1/48 + 0.15 + 0.1, below the model score itself; full
   * signals clamp to 1; a score of exactly 0.75 gets no boost.
   */
  lemma FuseExamples()
    ensures Fuse(0.9, 1.0 / 12.0, 1.0) == 0.54 + 1.0 / 48.0 + 0.15 + 0.1
    ensures Fuse(0.9, 1.0 / 12.0, 1.0) < 0.9
    ensures Fuse(1.0, 1.0, 1.0) == 1.0
    ensures Fuse(0.75, 0.0, 0.0) == 0.45
    ensures Fuse(0.8, 0.5, 1.0) == 0.855
  {
  }

  /** With no signal at all the confidence is 0, and it is 1 only with a boosted score. */
  lemma FuseExtremes(bart: real, kd: real, bonus: real)
    requires 0.0 <= bart <= 1.0 && 0.0 <= kd <= 1.0 && 0.0 <= bonus <= 1.0
    ensures Fuse(bart, kd, bonus) == 0.0 <==> bart == 0.0 && kd == 0.0 && bonus == 0.0
    ensures Fuse(bart, kd, bonus) == 1.0 ==> bart > 0.75
  {
  }

  /** The keywords of `kws`, in order, whose lower-cased form occurs in `t`. */
  function SubstringMatches(kws: seq<string>, t: string): (r: seq<string>)
    ensures IsSubseq(r, kws)
    ensures forall k | 0 <= k < |r| :: IsSubstring(Lower(r[k]), t)
    ensures forall kw | kw in kws :: kw in r <==> IsSubstring(Lower(kw), t)
  {
    if kws == [] then []
    else
      var init, last := kws[..|kws| - 1], kws[|kws| - 1];
      var r := SubstringMatches(init, t);
      SubseqElements(r, init);
      assert kws == init + [last];
      if IsSubstring(Lower(last), t) then
        r + [last]
      else
        SubseqDropLast(r, kws);
        r
  }

  /** The explanation's keyword list: the first six substring matches of the domain's keywords. */
  function MatchedKeywords(text: string, domain: string): seq<string> {
    Take(SubstringMatches(KeywordsOf(domain), Lower(text)), 6)
  }

  /**
   * The matched-keyword list has at most six entries, keeps definition
   * order, holds only keywords of the domain present in the text, and holds
   * every such keyword when there are at most six.
   */
  lemma MatchedKeywordsSound(text: string, domain: string)
    ensures |MatchedKeywords(text, domain)| <= 6
    ensures IsSubseq(MatchedKeywords(text, domain), KeywordsOf(domain))
    ensures forall kw | kw in MatchedKeywords(text, domain) ::
      kw in KeywordsOf(domain) && IsSubstring(Lower(kw), Lower(text))
    ensures |SubstringMatches(KeywordsOf(domain), Lower(text))| <= 6 ==>
      forall kw | kw in KeywordsOf(domain) && IsSubstring(Lower(kw), Lower(text)) ::
        kw in MatchedKeywords(text, domain)
  {
    var all := SubstringMatches(KeywordsOf(domain), Lower(text));
    var m := MatchedKeywords(text, domain);
    SubseqPrefix(all, KeywordsOf(domain), |m|);
    assert all[..|m|] == m;
    SubseqElements(m, KeywordsOf(domain));
    forall kw | kw in m ensures IsSubstring(Lower(kw), Lower(text)) {
      var j :| 0 <= j < |m| && m[j] == kw;
      assert all[j] == kw;
    }
  }

  /** What the reasoning string of build_reasoning reports; its text formatting is not modelled. */
  datatype Reasoning = Reasoning(modelScore: real, keywordDensity: real, finalConf: real, matched: seq<string>)

  /**
   * The explanation build_reasoning produces for `text` in `domain` at model
   * score `bart`: the score, the density, their fusion with the control
   * bonus, and the matched keywords.
   */
  function ReasoningOf(text: string, domain: string, bart: real): (r: Reasoning)
    ensures 0.0 <= r.keywordDensity <= 1.0 && 0.0 <= r.finalConf <= 1.0
    ensures |r.matched| <= 6
  {
    var kd := KeywordDensity(text, domain);
    Reasoning(bart, kd, Fuse(bart, kd, ControlBonus(DetectControl(text))), MatchedKeywords(text, domain))
  }

  /**
   * build_reasoning: fuses the model score with the heuristics, clamps the
   * result, and collects the matched keywords.
   */
  method BuildReasoning(text: string, domain: string, bartConf: real) returns (finalConf: real, reasoning: Reasoning)
    ensures reasoning == ReasoningOf(text, domain, bartConf)
    ensures finalConf == reasoning.finalConf
    ensures 0.0 <= finalConf <= 1.0
    ensures |reasoning.matched| <= 6
  {
    var kd := KeywordDensity(text, domain);
    var control := DetectControl(text);
    var controlBonus := if control != Sentinel then 1.0 else 0.0;
    finalConf := 0.6 * bartConf + 0.25 * kd + 0.15 * controlBonus;
    if bartConf > 0.75 {
      finalConf := finalConf + 0.1;
    }
    finalConf := Max(0.0, Min(1.0, finalConf));
    assert finalConf == Fuse(bartConf, kd, ControlBonus(control));

    var matched := CollectMatches(KeywordsOf(domain), Lower(text));
    matched := Take(matched, 6);
    reasoning := Reasoning(bartConf, kd, finalConf, matched);
  }

  /** The loop of build_reasoning that keeps, in order, the keywords occurring in the lowercased text. */
  method CollectMatches(kws: seq<string>, lowered: string) returns (matched: seq<string>)
    ensures matched == SubstringMatches(kws, lowered)
  {
    matched := [];
    var i := 0;
    while i < |kws|
      invariant 0 <= i <= |kws|
      invariant matched == SubstringMatches(kws[..i], lowered)
    {
      assert kws[..i + 1][..i] == kws[..i];
      if IsSubstring(Lower(kws[i]), lowered) {
        matched := matched + [kws[i]];
      }
      i := i + 1;
    }
    assert kws[..i] == kws;
  }
}
