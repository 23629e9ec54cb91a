/**
 * The batch run of `main`: evaluate every dataset row in order, then report
 * each flag's share of the rows as a percentage.
 */
module Summary {
  import opened Optional
  import opened Quotes
  import opened Grounding
  import opened Record
  import opened Rounding

  /** One dataset row: its `user_type` (the persona) and its `query`. */
  datatype Case = Case(userType: string, query: string)

  /** What the answering engine produced for one row, and how long the call took. */
  datatype Invocation = Invocation(output: EngineOutput, latency: real)

  /** The five percentages printed at the end of a run. */
  datatype Report = Report(
    effectiveness: real,
    faithful: real,
    grounded: real,
    explicitQuotes: real,
    escalation: real)

  /** The threshold `main` applies to `semantic_sim`, whatever `sem_thresh` was passed. */
  const FaithfulThreshold: real := 0.65
  /** The `sem_thresh` argument `main` passes to `eval_query`; it is never read. */
  const PassedSemThresh: real := 0.55
  /** `"Escalate:"` as matched case-insensitively. */
  const EscalationMarker: string := "escalate:"
  /**
   * The literal answer the engine gives when no policy matches, "Escalate: no
   * policy match found.", written in pieces so that facts about its
   * characters stay cheap to check.
   */
  const EscalationAnswer: string := "Escalate:" + " no policy" + " match found."

  /**
   * Under Python's `re.IGNORECASE`, text character `c` matches the lower-case
   * pattern character `p`: itself, its ASCII capital, and for `s` also the
   * long s, which folds to it.
   */
  predicate FoldsTo(c: char, p: char) {
    c == p ||
    ('a' <= p <= 'z' && c as int == p as int - 32) ||
    (p == 's' && c == '\U{17F}')
  }

  /** The case fold of one character: ASCII capitals to lower case, the long s to `s`. */
  function Fold(c: char): char {
    if 'A' <= c <= 'Z' then (c as int + 32) as char
    else if c == '\U{17F}' then 's'
    else c
  }

  /** `text` with every character folded. */
  function FoldText(text: string): (folded: string)
    ensures |folded| == |text| && forall i :: 0 <= i < |text| ==> folded[i] == Fold(text[i])
  {
    seq(|text|, i requires 0 <= i < |text| => Fold(text[i]))
  }

  /** A text character matches a folded pattern character exactly when it folds to it. */
  lemma FoldsToIff(c: char, p: char)
    requires Fold(p) == p
    ensures FoldsTo(c, p) <==> Fold(c) == p
  {
  }

  /** The lower-case pattern `pat` matches `text` case-insensitively at position `k`. */
  predicate MatchesAt(text: string, k: nat, pat: string) {
    k + |pat| <= |text| && forall i :: 0 <= i < |pat| ==> FoldsTo(text[k + i], pat[i])
  }

  /** `text.str.contains(pat, case=False)` for a pattern without regular-expression operators. */
  predicate ContainsIgnoreCase(text: string, pat: string) {
    exists k: nat :: k <= |text| && MatchesAt(text, k, pat)
  }

  /**
   * Case-insensitive search for a folded pattern is plain substring search
   * in the folded text: `pat in FoldText(text)`.
   */
  lemma ContainsIgnoreCaseIff(text: string, pat: string)
    requires forall i :: 0 <= i < |pat| ==> Fold(pat[i]) == pat[i]
    ensures ContainsIgnoreCase(text, pat) <==> IsSubstring(pat, FoldText(text))
  {
    var folded := FoldText(text);
    forall k: nat | k <= |text|
      ensures MatchesAt(text, k, pat) <==> pat <= folded[k..]
    {
      if k + |pat| <= |text| {
        forall i | 0 <= i < |pat| ensures FoldsTo(text[k + i], pat[i]) <==> folded[k..][i] == pat[i] {
          FoldsToIff(text[k + i], pat[i]);
        }
      }
    }
    if IsSubstring(pat, folded) {
      var k :| 0 <= k <= |folded| && pat <= folded[k..];
      assert MatchesAt(text, k, pat);
    }
  }

  /** A row counts as escalating exactly when `escalate:` occurs in its folded excerpt. */
  lemma EscalationIsFoldedSearch(r: EvalResult)
    ensures IsEscalation(r) <==> IsSubstring(EscalationMarker, FoldText(r.answer))
  {
    MarkerIsFolded(EscalationMarker);
    ContainsIgnoreCaseIff(r.answer, EscalationMarker);
  }

  /** The marker is already folded. */
  lemma MarkerIsFolded(pat: string)
    requires pat == EscalationMarker
    ensures forall i :: 0 <= i < |pat| ==> Fold(pat[i]) == pat[i]
  {
  }

  predicate IsAnswered(r: EvalResult) { r.answered }
  predicate IsQuoted(r: EvalResult) { r.hasExplicitQuote }
  predicate IsGrounded(r: EvalResult) { r.groundedStrict }
  predicate IsFaithful(r: EvalResult) { r.semanticSim >= FaithfulThreshold }
  predicate IsEscalation(r: EvalResult) { ContainsIgnoreCase(r.answer, EscalationMarker) }

  /** The positions of the rows satisfying `p`: where a boolean column is true. */
  function Holders(rows: seq<EvalResult>, p: EvalResult -> bool): set<nat> {
    set i: nat | i < |rows| && p(rows[i])
  }

  /** Number of rows satisfying `p`: the numerator of `.mean()` over a boolean column. */
  function Count(rows: seq<EvalResult>, p: EvalResult -> bool): (n: nat)
    ensures n == |Holders(rows, p)|
    ensures n <= |rows|
  {
    if rows == [] then
      assert Holders(rows, p) == {};
      0
    else
      var init := rows[..|rows| - 1];
      assert forall i :: 0 <= i < |init| ==> init[i] == rows[i];
      HoldersSnoc(rows, p);
      Count(init, p) + if p(rows[|rows| - 1]) then 1 else 0
  }

  /** No row counts exactly when none satisfies `p`, and every row counts exactly when all do. */
  lemma {:induction false} CountExtremes(rows: seq<EvalResult>, p: EvalResult -> bool)
    ensures Count(rows, p) == 0 <==> forall i :: 0 <= i < |rows| ==> !p(rows[i])
    ensures Count(rows, p) == |rows| <==> forall i :: 0 <= i < |rows| ==> p(rows[i])
  {
    if rows != [] {
      var init := rows[..|rows| - 1];
      assert forall i :: 0 <= i < |init| ==> init[i] == rows[i];
      CountExtremes(init, p);
    }
  }

  /** Adding a row adds its position to the holders exactly when it satisfies `p`. */
  lemma HoldersSnoc(rows: seq<EvalResult>, p: EvalResult -> bool)
    requires rows != []
    ensures |Holders(rows, p)| == |Holders(rows[..|rows| - 1], p)| + if p(rows[|rows| - 1]) then 1 else 0
  {
    var init, last := rows[..|rows| - 1], |rows| - 1;
    var extra: set<nat> := if p(rows[last]) then {last} else {};
    assert Holders(rows, p) == Holders(init, p) + extra by {
      forall i: nat ensures i in Holders(rows, p) <==> i in Holders(init, p) + extra {
        if i < last {
          assert rows[i] == init[i];
        }
      }
    }
    assert Holders(init, p) * extra == {};
  }

  /** `100 * column.mean()` for a column holding `count` true values among `total`. */
  function Percent(count: nat, total: nat): (pct: real)
    requires 0 < total && count <= total
    ensures 0.0 <= pct <= 100.0
    ensures pct == 0.0 <==> count == 0
    ensures pct == 100.0 <==> count == total
    ensures pct * (total as real) == 100.0 * (count as real)
  {
    var pct := 100.0 * (count as real) / (total as real);
    assert pct * (total as real) == 100.0 * (count as real);
    pct
  }

  lemma PercentMonotone(c1: nat, c2: nat, total: nat)
    requires 0 < total && c1 <= c2 <= total
    ensures Percent(c1, total) <= Percent(c2, total)
  {
    var n := total as real;
    var p1, p2 := Percent(c1, total), Percent(c2, total);
    assert (p2 - p1) * n == 100.0 * (c2 as real - c1 as real);
    assert (p2 - p1) * n >= 0.0;
  }

  /**
   * `100 * df[column].mean()`: 100 times the number of rows whose flag is
   * set, divided by the number of rows.
   */
  function Share(rows: seq<EvalResult>, p: EvalResult -> bool): (pct: real)
    requires rows != []
    ensures pct == 100.0 * (|Holders(rows, p)| as real) / (|rows| as real)
    ensures 0.0 <= pct <= 100.0
  {
    var c := Count(rows, p);
    PercentFormula(c, |Holders(rows, p)|, |rows|);
    Percent(c, |rows|)
  }

  /**
   * The summary of a run. pandas cannot take the mean of a column that an
   * empty table lacks, so a run without rows fails: `None`.
   */
  function Summarize(rows: seq<EvalResult>): (rep: Option<Report>)
    ensures rep.None? <==> rows == []
    ensures rep.Some? ==> (0.0 <= rep.value.effectiveness <= 100.0 && 0.0 <= rep.value.faithful <= 100.0 &&
                           0.0 <= rep.value.grounded <= 100.0 && 0.0 <= rep.value.explicitQuotes <= 100.0 &&
                           0.0 <= rep.value.escalation <= 100.0)
    ensures rep.Some? ==> var n := |rows| as real;
      rep.value.effectiveness == 100.0 * (|Holders(rows, IsAnswered)| as real) / n &&
      rep.value.faithful == 100.0 * (|Holders(rows, IsFaithful)| as real) / n &&
      rep.value.grounded == 100.0 * (|Holders(rows, IsGrounded)| as real) / n &&
      rep.value.explicitQuotes == 100.0 * (|Holders(rows, IsQuoted)| as real) / n &&
      rep.value.escalation == 100.0 * (|Holders(rows, IsEscalation)| as real) / n
  {
    if rows == [] then None
    else
      Some(Report(
        Share(rows, IsAnswered),
        Share(rows, IsFaithful),
        Share(rows, IsGrounded),
        Share(rows, IsQuoted),
        Share(rows, IsEscalation)))
  }

  /** The percentage of a numerator that is `count`, written as the quotient it is. */
  lemma PercentFormula(c: nat, k: nat, n: nat)
    requires 0 < n && c <= n && c == k
    ensures Percent(c, n) == 100.0 * (k as real) / (n as real)
  {
  }

  /** Rows satisfying `p` are never more than rows satisfying a weaker `q`. */
  lemma {:induction false} CountMonotone(rows: seq<EvalResult>, p: EvalResult -> bool, q: EvalResult -> bool)
    requires forall i :: 0 <= i < |rows| ==> p(rows[i]) ==> q(rows[i])
    ensures Count(rows, p) <= Count(rows, q)
  {
    if rows != [] {
      var init := rows[..|rows| - 1];
      assert forall i :: 0 <= i < |init| ==> init[i] == rows[i];
      CountMonotone(init, p, q);
    }
  }

  /** Since every strictly grounded row quotes, the grounded share never exceeds the quoted share. */
  lemma GroundedShareAtMostQuotedShare(rows: seq<EvalResult>)
    requires forall i :: 0 <= i < |rows| ==> rows[i].groundedStrict ==> rows[i].hasExplicitQuote
    ensures Count(rows, IsGrounded) <= Count(rows, IsQuoted)
    ensures Summarize(rows).Some? ==> Summarize(rows).value.grounded <= Summarize(rows).value.explicitQuotes
  {
    CountMonotone(rows, IsGrounded, IsQuoted);
    if rows != [] {
      PercentMonotone(Count(rows, IsGrounded), Count(rows, IsQuoted), |rows|);
    }
  }

  /** The faithful threshold is inclusive: 0.65 counts, 0.6499 does not. */
  lemma FaithfulThresholdInclusive(r: EvalResult)
    ensures r.semanticSim == 0.65 ==> IsFaithful(r)
    ensures r.semanticSim == 0.6499 ==> !IsFaithful(r)
  {
  }

  /**
   * A row counts as faithful exactly when its unrounded similarity is at
   * least 0.64995, because the threshold is applied after rounding to four
   * decimals.
   */
  lemma FaithfulRow(persona: string, query: string, out: EngineOutput, latency: real,
                    sim: (string, string) -> real)
    ensures IsFaithful(Evaluate(persona, query, out, latency, sim)) <==>
      SemanticSimSpec(QuoteTexts(AnswerText(out)), ChunkTexts(Documents(out)), sim) >= 0.64995
  {
    RoundedAtLeastCutoff(SemanticSimSpec(QuoteTexts(AnswerText(out)), ChunkTexts(Documents(out)), sim));
  }

  /**
   * The answer quoting the policy sentence that its only chunk holds counts as
   * faithful whenever the similarity of the sentence with itself reaches the
   * cut-off, as the cosine of a text with itself (1.0) does.
   */
  lemma SignatureParcelFaithful(persona: string, query: string, answer: string, sentence: string,
                                src: Option<string>, latency: real, sim: (string, string) -> real)
    requires answer == ParcelAnswer && sentence == ParcelSentence
    requires sim(sentence, sentence) >= 0.64995
    ensures IsFaithful(Evaluate(persona, query, EngineOutput(Some(answer), Some([Doc(sentence, src)])), latency, sim))
  {
    SignatureParcelScenario(persona, query, answer, sentence, src, latency, sim);
    RoundedAtLeastCutoff(sim(sentence, sentence));
  }

  /** The row `eval_query` produces for one dataset row. */
  function EvaluateCase(c: Case, call: Invocation, sim: (string, string) -> real): EvalResult {
    Evaluate(c.userType, c.query, call.output, call.latency, sim)
  }

  /** The rows of a run, in dataset order: `calls[i]` is what the engine answered for `cases[i]`. */
  function EvaluateAll(cases: seq<Case>, calls: seq<Invocation>, sim: (string, string) -> real): (rows: seq<EvalResult>)
    requires |calls| == |cases|
    ensures |rows| == |cases|
  {
    if cases == [] then []
    else EvaluateAll(cases[..|cases| - 1], calls[..|calls| - 1], sim) + [EvaluateCase(cases[|cases| - 1], calls[|calls| - 1], sim)]
  }

  /** Row `i` of a run is the evaluation of dataset row `i`. */
  lemma {:induction false} EvaluateAllAt(cases: seq<Case>, calls: seq<Invocation>, sim: (string, string) -> real, i: nat)
    requires |calls| == |cases| && i < |cases|
    ensures EvaluateAll(cases, calls, sim)[i] == EvaluateCase(cases[i], calls[i], sim)
  {
    if i < |cases| - 1 {
      EvaluateAllAt(cases[..|cases| - 1], calls[..|calls| - 1], sim, i);
    }
  }

  /** Evaluating one more dataset row appends its result to the table. */
  lemma EvaluateAllSnoc(cases: seq<Case>, calls: seq<Invocation>, sim: (string, string) -> real, i: nat)
    requires |calls| == |cases| && i < |cases|
    ensures EvaluateAll(cases[..i + 1], calls[..i + 1], sim)
      == EvaluateAll(cases[..i], calls[..i], sim) + [EvaluateCase(cases[i], calls[i], sim)]
  {
    assert cases[..i + 1][..i] == cases[..i] && calls[..i + 1][..i] == calls[..i];
  }

  /**
   * The loop of `main`: evaluate the rows one after the other, appending
   * each result, so that the table keeps dataset order.
   */
  method RunBatch(cases: seq<Case>, calls: seq<Invocation>, sim: (string, string) -> real)
    returns (rows: seq<EvalResult>)
    requires |calls| == |cases|
    ensures rows == EvaluateAll(cases, calls, sim)
  {
    rows := [];
    var i := 0;
    while i < |cases|
      invariant 0 <= i <= |cases|
      invariant rows == EvaluateAll(cases[..i], calls[..i], sim)
    {
      var c, call := cases[i], calls[i];
      var r := EvalQuery(c.userType, c.query, PassedSemThresh, call.output, call.latency, sim);
      EvaluateAllSnoc(cases, calls, sim, i);
      rows := rows + [r];
      i := i + 1;
    }
    assert cases[..i] == cases && calls[..i] == calls;
  }

  /** Every row `RunBatch` produces keeps the invariant that strict grounding implies a quote. */
  lemma BatchRowsConsistent(cases: seq<Case>, calls: seq<Invocation>, sim: (string, string) -> real,
                            rows: seq<EvalResult>)
    requires |calls| == |cases| && rows == EvaluateAll(cases, calls, sim)
    ensures forall i :: 0 <= i < |rows| ==> rows[i].groundedStrict ==> rows[i].hasExplicitQuote
    ensures Count(rows, IsGrounded) <= Count(rows, IsQuoted)
  {
    forall i | 0 <= i < |rows| ensures rows[i].groundedStrict ==> rows[i].hasExplicitQuote {
      EvaluateAllAt(cases, calls, sim, i);
      EvaluateInvariants(cases[i].userType, cases[i].query, calls[i].output, calls[i].latency, sim);
    }
    GroundedShareAtMostQuotedShare(rows);
  }

  /**
   * An answer that starts with the escalation marker and carries no double
   * quote: answered, not quoting, not grounded, similarity 0.0, and counted
   * as an escalation.
   */
  lemma EscalationRow(persona: string, query: string, out: EngineOutput, latency: real,
                      sim: (string, string) -> real)
    requires DQ !in AnswerText(out) && '\n' !in AnswerText(out) && |AnswerText(out)| <= ExcerptLength
    requires MatchesAt(AnswerText(out), 0, EscalationMarker)
    ensures var r := Evaluate(persona, query, out, latency, sim);
      r.answered && !r.hasExplicitQuote && !r.groundedStrict && r.semanticSim == 0.0 && IsEscalation(r)
  {
    var answer := AnswerText(out);
    assert FoldsTo(answer[0], EscalationMarker[0]);
    AnsweredIff(answer);
    NoQuoteNoEvidence(persona, query, out, latency, sim);
    ExcerptKeepsShortLine(answer);
    ExcerptSpec(answer);
    assert MatchesAt(Excerpt(answer), 0, EscalationMarker);
  }

  /** The fixed escalation answer the engine gives when no policy matches, whatever chunks came with it. */
  lemma EscalationAnswerScenario(persona: string, query: string, answer: string, docs: Option<seq<Doc>>,
                                 latency: real, sim: (string, string) -> real)
    requires answer == EscalationAnswer
    ensures var r := Evaluate(persona, query, EngineOutput(Some(answer), docs), latency, sim);
      r.answered && !r.hasExplicitQuote && !r.groundedStrict && r.semanticSim == 0.0 && IsEscalation(r)
  {
    EscalationAnswerShape(answer);
    EscalationRow(persona, query, EngineOutput(Some(answer), docs), latency, sim);
  }

  /** The escalation answer starts with the marker and is a short line without quote marks. */
  lemma EscalationAnswerShape(answer: string)
    requires answer == EscalationAnswer
    ensures DQ !in answer && '\n' !in answer && |answer| <= ExcerptLength
    ensures MatchesAt(answer, 0, EscalationMarker)
  {
  }
}
