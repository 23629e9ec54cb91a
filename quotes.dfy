/**
 * Quote extraction: `QUOTE_RE.findall(answer)` for the pattern
 * `"([^"]{8,400})"`, i.e. a straight double quote, a run of 8 to 400
 * characters none of which is a double quote, and a closing double quote.
 * `findall` scans left to right and never overlaps two matches: after a
 * match it resumes just past the closing quote, after a failed attempt it
 * moves on by one character.
 */
module Quotes {
  import opened Optional

  const DQ: char := '"'
  /** Bounds of the quantifier `{8,400}`. */
  const MinQuote: nat := 8
  const MaxQuote: nat := 400

  /** The captured group of one match: the text strictly between the two quote marks is `s[start..end]`. */
  datatype Span = Span(start: nat, end: nat)

  /**
   * What it means for the pattern to match with its opening quote at `i`
   * and its closing quote at `e`, stated without any scanning.
   */
  predicate RegexMatch(s: string, i: int, e: int) {
    0 <= i < e < |s| && s[i] == DQ && s[e] == DQ &&
    MinQuote <= e - i - 1 <= MaxQuote &&
    forall k :: i < k < e ==> s[k] != DQ
  }

  /** Length of the maximal run of non-quote characters that starts at `j`. */
  function RunLength(s: string, j: nat): (n: nat)
    requires j <= |s|
    ensures j + n <= |s|
    ensures forall k :: j <= k < j + n ==> s[k] != DQ
    ensures j + n == |s| || s[j + n] == DQ
    decreases |s| - j
  {
    if j == |s| || s[j] == DQ then 0 else 1 + RunLength(s, j + 1)
  }

  /**
   * One attempt of the pattern anchored at `i`. The greedy `[^"]{8,400}`
   * can only be followed by `"` at the end of the maximal non-quote run, so
   * the attempt succeeds exactly when that run has an admissible length and
   * is closed by a quote; backtracking to a shorter run never helps.
   */
  function MatchAt(s: string, i: nat): (m: Option<Span>)
    requires i <= |s|
    ensures m.Some? ==> m.value.start == i + 1 && RegexMatch(s, i, m.value.end)
    ensures m.None? ==> forall e :: !RegexMatch(s, i, e)
  {
    if i == |s| || s[i] != DQ then None
    else
      var n := RunLength(s, i + 1);
      MatchEndIsRunEnd(s, i, n);
      if MinQuote <= n <= MaxQuote && i + 1 + n < |s| then Some(Span(i + 1, i + 1 + n))
      else None
  }

  /** A match opened at `i` can only close where the non-quote run after `i` ends. */
  lemma MatchEndIsRunEnd(s: string, i: nat, n: nat)
    requires i < |s| && n == RunLength(s, i + 1)
    ensures forall e :: RegexMatch(s, i, e) ==> e == i + 1 + n
  {
    forall e | RegexMatch(s, i, e) ensures e == i + 1 + n {
    }
  }

  /** The spans `findall` reports when it starts scanning at position `p`. */
  function ScanFrom(s: string, p: nat): seq<Span>
    requires p <= |s|
    decreases |s| - p
  {
    if p == |s| then []
    else
      match MatchAt(s, p)
      case Some(sp) => [sp] + ScanFrom(s, sp.end + 1)
      case None => ScanFrom(s, p + 1)
  }

  /**
   * `spans` are matches of the pattern whose opening quotes lie at or after
   * `p`, in increasing order, each closing before the next one opens.
   */
  predicate ValidSpans(s: string, p: nat, spans: seq<Span>) {
    (forall k :: 0 <= k < |spans| ==> p < spans[k].start && RegexMatch(s, spans[k].start - 1, spans[k].end)) &&
    (forall j, k :: 0 <= j < k < |spans| ==> spans[j].end < spans[k].start - 1)
  }

  /** What the scan reports are genuine, ordered, non-overlapping matches. */
  lemma {:induction false} ScanSound(s: string, p: nat)
    requires p <= |s|
    ensures ValidSpans(s, p, ScanFrom(s, p))
    decreases |s| - p
  {
    if p < |s| {
      var m := MatchAt(s, p);
      if m.None? {
        ScanSound(s, p + 1);
        ScanStepNone(s, p);
        ValidFromLater(s, p, ScanFrom(s, p + 1));
      } else {
        var sp := m.value;
        var rest := ScanFrom(s, sp.end + 1);
        ScanSound(s, sp.end + 1);
        ScanStepSome(s, p);
        ValidCons(s, p, sp, rest);
      }
    }
  }

  /** Spans valid from `p + 1` are valid from `p`. */
  lemma ValidFromLater(s: string, p: nat, spans: seq<Span>)
    requires ValidSpans(s, p + 1, spans)
    ensures ValidSpans(s, p, spans)
  {
  }

  /** A match opened at `p`, followed by valid spans from just past its closing quote. */
  lemma ValidCons(s: string, p: nat, sp: Span, rest: seq<Span>)
    requires sp.start == p + 1 && RegexMatch(s, p, sp.end)
    requires ValidSpans(s, sp.end + 1, rest)
    ensures ValidSpans(s, p, [sp] + rest)
  {
    var spans := [sp] + rest;
    forall k | 0 <= k < |spans|
      ensures p < spans[k].start && RegexMatch(s, spans[k].start - 1, spans[k].end)
    {
      if k > 0 { assert spans[k] == rest[k - 1]; }
    }
    forall j, k | 0 <= j < k < |spans| ensures spans[j].end < spans[k].start - 1 {
      assert spans[k] == rest[k - 1];
      if j > 0 { assert spans[j] == rest[j - 1]; }
    }
  }

  /** All matches of the pattern in `s`, in order. */
  function FindAll(s: string): (spans: seq<Span>)
    ensures forall k :: 0 <= k < |spans| ==> RegexMatch(s, spans[k].start - 1, spans[k].end)
    ensures forall j, k :: 0 <= j < k < |spans| ==> spans[j].end < spans[k].start - 1
  {
    ScanSound(s, 0);
    ScanFrom(s, 0)
  }

  /** `QUOTE_RE.findall(s)`: the captured texts of all matches, in order. */
  function QuoteTexts(s: string): (quotes: seq<string>)
    ensures |quotes| == |FindAll(s)|
    ensures forall k :: 0 <= k < |quotes| ==>
      var sp := FindAll(s)[k];
      quotes[k] == s[sp.start..sp.end] && s[sp.start - 1] == DQ && s[sp.end] == DQ
    ensures forall k :: 0 <= k < |quotes| ==>
      MinQuote <= |quotes[k]| <= MaxQuote && DQ !in quotes[k]
  {
    var spans := FindAll(s);
    seq(|spans|, k requires 0 <= k < |spans| => s[spans[k].start..spans[k].end])
  }

  /** Position `i` is the opening quote of, or lies inside, one of `spans`. */
  predicate Covered(spans: seq<Span>, i: int) {
    exists k :: 0 <= k < |spans| && spans[k].start - 1 <= i <= spans[k].end
  }

  /**
   * Nothing is skipped: every position where the pattern could match is
   * either the opening quote of a reported match or lies inside one
   * (possibly as its closing quote, which `findall` has already consumed).
   */
  lemma {:induction false} ScanCovers(s: string, p: nat, i: nat, e: nat)
    requires p <= i && RegexMatch(s, i, e)
    ensures Covered(ScanFrom(s, p), i)
    decreases |s| - p
  {
    var m := MatchAt(s, p);
    if m.None? {
      assert p < i;
      ScanCovers(s, p + 1, i, e);
      ScanStepNone(s, p);
    } else {
      var sp := m.value;
      var rest := ScanFrom(s, sp.end + 1);
      if i > sp.end {
        ScanCovers(s, sp.end + 1, i, e);
      }
      ScanStepSome(s, p);
      CoveredCons(sp, rest, i);
    }
  }

  /** A failed attempt at `p` moves the scan on by one character. */
  lemma ScanStepNone(s: string, p: nat)
    requires p < |s| && MatchAt(s, p).None?
    ensures ScanFrom(s, p) == ScanFrom(s, p + 1)
  {
  }

  /** A match at `p` is reported, and the scan resumes past its closing quote. */
  lemma ScanStepSome(s: string, p: nat)
    requires p < |s| && MatchAt(s, p).Some?
    ensures ScanFrom(s, p) == [MatchAt(s, p).value] + ScanFrom(s, MatchAt(s, p).value.end + 1)
  {
  }

  /** Covering is kept when a span is put in front. */
  lemma CoveredCons(sp: Span, rest: seq<Span>, i: int)
    requires sp.start - 1 <= i <= sp.end || Covered(rest, i)
    ensures Covered([sp] + rest, i)
  {
    if !(sp.start - 1 <= i <= sp.end) {
      var k :| 0 <= k < |rest| && rest[k].start - 1 <= i <= rest[k].end;
      assert ([sp] + rest)[k + 1] == rest[k];
    } else {
      assert ([sp] + rest)[0] == sp;
    }
  }

  lemma FindAllComplete(s: string, i: nat, e: nat)
    requires RegexMatch(s, i, e)
    ensures Covered(FindAll(s), i)
  {
    ScanCovers(s, 0, i, e);
  }

  /** An answer without any double quote yields no quotes. */
  lemma NoQuoteCharNoQuotes(s: string)
    ensures DQ !in s ==> QuoteTexts(s) == []
  {
    if |FindAll(s)| > 0 {
      var sp := FindAll(s)[0];
      assert s[sp.end] in s;
    }
  }

  /** Scanning across a stretch without quote marks finds nothing there. */
  lemma {:induction false} ScanSkipsQuoteless(s: string, p: nat, q: nat)
    requires p <= q <= |s|
    requires forall k :: p <= k < q ==> s[k] != DQ
    ensures ScanFrom(s, p) == ScanFrom(s, q)
    decreases q - p
  {
    if p < q {
      assert MatchAt(s, p).None?;
      ScanSkipsQuoteless(s, p + 1, q);
    }
  }

  /**
   * An answer holding exactly one pair of quote marks around an admissible
   * span yields exactly that span.
   */
  lemma SingleQuote(pre: string, q: string, post: string)
    requires DQ !in pre && DQ !in q && DQ !in post
    requires MinQuote <= |q| <= MaxQuote
    ensures QuoteTexts(pre + [DQ] + q + [DQ] + post) == [q]
  {
    var s := pre + [DQ] + q + [DQ] + post;
    var i := |pre|;
    var e := |pre| + 1 + |q|;
    assert s[i] == DQ && s[e] == DQ;
    forall k | 0 <= k < i ensures s[k] != DQ { assert s[k] == pre[k]; }
    forall k | i < k < e ensures s[k] != DQ { assert s[k] == q[k - i - 1]; }
    forall k | e < k < |s| ensures s[k] != DQ { assert s[k] == post[k - e - 1]; }
    ScanSkipsQuoteless(s, 0, i);
    ScanSkipsQuoteless(s, e + 1, |s|);
    assert RegexMatch(s, i, e);
    assert MatchAt(s, i) == Some(Span(i + 1, e));
    assert FindAll(s) == [Span(i + 1, e)];
    assert s[i + 1..e] == q;
  }

  /** Every match needs room for two quote marks around at least `MinQuote` characters. */
  lemma QuotesNeedRoom(s: string)
    ensures |s| < MinQuote + 2 ==> QuoteTexts(s) == []
  {
    if |FindAll(s)| > 0 {
      var sp := FindAll(s)[0];
      assert RegexMatch(s, sp.start - 1, sp.end);
    }
  }

  /** A quoted span shorter than the lower bound is not reported: `"ok"` yields nothing. */
  lemma ShortQuoteRejected()
    ensures QuoteTexts("\"ok\"") == []
  {
    QuotesNeedRoom("\"ok\"");
  }
}
