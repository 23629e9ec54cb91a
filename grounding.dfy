/**
 * The grounding judge of `eval_query`: whether an answer was given at all,
 * whether it quotes, whether a quote appears verbatim in the retrieved
 * context, and how close (by an embedding similarity supplied from outside)
 * the longest quote comes to the context.
 */
module Grounding {

  /** Python's `str.isspace()` for one character: the characters `str.strip()` removes. */
  predicate IsSpace(c: char) {
    ('\t' <= c <= '\r') || ('\U{1C}' <= c <= ' ') || c == '\U{85}' || c == '\U{A0}' ||
    c == '\U{1680}' || ('\U{2000}' <= c <= '\U{200A}') || c == '\U{2028}' || c == '\U{2029}' ||
    c == '\U{202F}' || c == '\U{205F}' || c == '\U{3000}'
  }

  /** Number of whitespace characters at the front of `s`. */
  function LeadingSpaces(s: string): (n: nat)
    ensures n <= |s|
    ensures forall k :: 0 <= k < n ==> IsSpace(s[k])
    ensures n == |s| || !IsSpace(s[n])
  {
    if s == [] || !IsSpace(s[0]) then 0 else 1 + LeadingSpaces(s[1..])
  }

  /** Number of whitespace characters at the back of `s`. */
  function TrailingSpaces(s: string): (n: nat)
    ensures n <= |s|
    ensures forall k :: |s| - n <= k < |s| ==> IsSpace(s[k])
    ensures n == |s| || !IsSpace(s[|s| - n - 1])
  {
    if s == [] || !IsSpace(s[|s| - 1]) then 0 else 1 + TrailingSpaces(s[..|s| - 1])
  }

  /** `s.strip()`: `s` without its leading and trailing whitespace. */
  function Strip(s: string): (r: string)
    ensures r != [] ==> !IsSpace(r[0]) && !IsSpace(r[|r| - 1])
    ensures LeadingSpaces(s) + |r| <= |s|
    ensures r == s[LeadingSpaces(s)..LeadingSpaces(s) + |r|]
    ensures forall k :: LeadingSpaces(s) + |r| <= k < |s| ==> IsSpace(s[k])
  {
    var rest := s[LeadingSpaces(s)..];
    rest[..|rest| - TrailingSpaces(rest)]
  }

  /** `bool(answer.strip())`. */
  predicate Answered(answer: string) {
    |Strip(answer)| > 0
  }

  /** An answer counts as answered exactly when it has a non-whitespace character. */
  lemma AnsweredIff(answer: string)
    ensures Answered(answer) <==> exists i :: 0 <= i < |answer| && !IsSpace(answer[i])
  {
    var a := LeadingSpaces(answer);
    if Answered(answer) {
      assert !IsSpace(answer[a]);
    }
  }

  /** Python's `q in c` for strings: `q` occurs as a contiguous substring of `c`. */
  predicate IsSubstring(q: string, c: string) {
    exists k :: 0 <= k <= |c| && q <= c[k..]
  }

  /** `any(q in c for c in ctx_texts)`. */
  predicate InSomeChunk(q: string, ctx: seq<string>) {
    exists j :: 0 <= j < |ctx| && IsSubstring(q, ctx[j])
  }

  /**
   * The `grounded_strict` loop: look through the quotes in order and stop at
   * the first one found verbatim in some chunk.
   */
  method GroundedStrict(quotes: seq<string>, ctx: seq<string>) returns (grounded: bool)
    ensures grounded <==> exists i, j :: 0 <= i < |quotes| && 0 <= j < |ctx| && IsSubstring(quotes[i], ctx[j])
  {
    grounded := false;
    var i := 0;
    while i < |quotes|
      invariant 0 <= i <= |quotes|
      invariant !grounded
      invariant forall i' :: 0 <= i' < i ==> !InSomeChunk(quotes[i'], ctx)
    {
      if InSomeChunk(quotes[i], ctx) {
        grounded := true;
        break;
      }
      i := i + 1;
    }
  }

  /**
   * `max(quotes, key=len)`: the index of the longest quote; Python's `max`
   * only replaces its candidate on a strictly larger key, so ties go to the
   * earliest quote.
   */
  function LongestIndex(quotes: seq<string>): (k: nat)
    requires quotes != []
    ensures k < |quotes|
    ensures forall j :: 0 <= j < |quotes| ==> |quotes[j]| <= |quotes[k]|
    ensures forall j :: 0 <= j < k ==> |quotes[j]| < |quotes[k]|
  {
    if |quotes| == 1 then 0
    else
      var k := LongestIndex(quotes[..|quotes| - 1]);
      assert forall j :: 0 <= j < |quotes| - 1 ==> quotes[..|quotes| - 1][j] == quotes[j];
      if |quotes[|quotes| - 1]| > |quotes[k]| then |quotes| - 1 else k
  }

  /** The two properties of `LongestIndex` pin down a single index. */
  lemma LongestIndexUnique(quotes: seq<string>, k: nat)
    requires k < |quotes|
    requires forall j :: 0 <= j < |quotes| ==> |quotes[j]| <= |quotes[k]|
    requires forall j :: 0 <= j < k ==> |quotes[j]| < |quotes[k]|
    ensures k == LongestIndex(quotes)
  {
    var m := LongestIndex(quotes);
    assert |quotes[m]| <= |quotes[k]| && |quotes[k]| <= |quotes[m]|;
  }

  /** `m` is the largest value of `sim(q, c)` over the chunks `c` of `ctx`, and is attained. */
  predicate IsMaxOver(m: real, q: string, ctx: seq<string>, sim: (string, string) -> real) {
    (exists j :: 0 <= j < |ctx| && m == sim(q, ctx[j])) &&
    (forall j :: 0 <= j < |ctx| ==> sim(q, ctx[j]) <= m)
  }

  /** `max(sim(q, c) for c in ctx)`, folded from the left. */
  function MaxSim(q: string, ctx: seq<string>, sim: (string, string) -> real): (m: real)
    requires ctx != []
    ensures IsMaxOver(m, q, ctx, sim)
  {
    if |ctx| == 1 then sim(q, ctx[0])
    else
      var prev := MaxSim(q, ctx[..|ctx| - 1], sim);
      assert forall j :: 0 <= j < |ctx| - 1 ==> ctx[..|ctx| - 1][j] == ctx[j];
      var last := sim(q, ctx[|ctx| - 1]);
      if last > prev then last else prev
  }

  /**
   * The `semantic_sim` value before rounding: 0.0 when there is no quote or no
   * chunk, otherwise the best similarity of the longest quote to any chunk.
   */
  function SemanticSimSpec(quotes: seq<string>, ctx: seq<string>, sim: (string, string) -> real): (r: real)
    ensures quotes == [] || ctx == [] ==> r == 0.0
    ensures quotes != [] && ctx != [] ==> IsMaxOver(r, quotes[LongestIndex(quotes)], ctx, sim)
    ensures (forall a, b :: -1.0 <= sim(a, b) <= 1.0) ==> -1.0 <= r <= 1.0
  {
    if quotes == [] || ctx == [] then 0.0
    else MaxSim(quotes[LongestIndex(quotes)], ctx, sim)
  }

  /** The `best_sim` accumulator of `eval_query`. */
  method SemanticSim(quotes: seq<string>, ctx: seq<string>, sim: (string, string) -> real) returns (best: real)
    ensures best == SemanticSimSpec(quotes, ctx, sim)
  {
    best := 0.0;
    if quotes != [] && ctx != [] {
      var q := quotes[LongestIndex(quotes)];
      best := sim(q, ctx[0]);
      var j := 1;
      while j < |ctx|
        invariant 1 <= j <= |ctx|
        invariant best == MaxSim(q, ctx[..j], sim)
      {
        var v := sim(q, ctx[j]);
        assert ctx[..j + 1][..j] == ctx[..j];
        if v > best {
          best := v;
        }
        j := j + 1;
      }
      assert ctx[..j] == ctx;
    }
  }
}
