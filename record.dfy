/**
 * One evaluation of `eval_query`: the answering engine's output (taken as an
 * input, together with the latency measured around the call) is judged and
 * turned into the row written to the detail log.
 */
module Record {
  import opened Optional
  import opened Quotes
  import opened Grounding
  import opened StringOrder
  import opened Rounding

  /** A retrieved chunk: its `page_content` and the `source` entry of its metadata, if any. */
  datatype Doc = Doc(text: string, source: Option<string>)

  /** What `chain.invoke` returned: the `result` and `source_documents` entries, each possibly missing or None. */
  datatype EngineOutput = EngineOutput(result: Option<string>, sourceDocuments: Option<seq<Doc>>)

  /** One row of the detail log; `semanticSim` rounded to four decimals, `latency` to two. */
  datatype EvalResult = EvalResult(
    persona: string,
    query: string,
    answered: bool,
    hasExplicitQuote: bool,
    groundedStrict: bool,
    semanticSim: real,
    latency: real,
    sources: string,
    answer: string)

  const Unknown: string := "unknown"
  const Separator: string := ", "
  /** Length of the answer excerpt kept in the log. */
  const ExcerptLength: nat := 800

  /** `out.get("result", "") or ""`. */
  function AnswerText(out: EngineOutput): string {
    out.result.GetOr("")
  }

  /** `out.get("source_documents", []) or []`. */
  function Documents(out: EngineOutput): seq<Doc> {
    out.sourceDocuments.GetOr([])
  }

  /**
   * A missing or `None` result is judged as the empty answer, and missing or
   * `None` source documents as no chunks; present entries are used as they are.
   */
  lemma OutputDefaults(out: EngineOutput)
    ensures out.result.None? ==> AnswerText(out) == ""
    ensures out.result.Some? ==> AnswerText(out) == out.result.value
    ensures out.sourceDocuments.None? ==> Documents(out) == []
    ensures out.sourceDocuments.Some? ==> Documents(out) == out.sourceDocuments.value
  {
  }

  /** `ctx_texts`. */
  function ChunkTexts(docs: seq<Doc>): (ctx: seq<string>)
    ensures |ctx| == |docs| && forall i :: 0 <= i < |docs| ==> ctx[i] == docs[i].text
  {
    seq(|docs|, i requires 0 <= i < |docs| => docs[i].text)
  }

  /** `os.path.basename(p)` for POSIX paths: the part after the last `/`. */
  function Basename(p: string): string {
    if p == [] || p[|p| - 1] == '/' then [] else Basename(p[..|p| - 1]) + [p[|p| - 1]]
  }

  /** The basename is the longest suffix of the path without a `/`. */
  lemma {:induction false} BasenameSpec(p: string)
    ensures |Basename(p)| <= |p| && Basename(p) == p[|p| - |Basename(p)|..]
    ensures forall k :: 0 <= k < |Basename(p)| ==> Basename(p)[k] != '/'
    ensures |Basename(p)| == |p| || p[|p| - |Basename(p)| - 1] == '/'
  {
    if p != [] && p[|p| - 1] != '/' {
      var init := p[..|p| - 1];
      BasenameSpec(init);
      var b := Basename(init);
      var r := b + [p[|p| - 1]];
      assert Basename(p) == r;
      calc {
        p[|p| - |r|..];
        p[|p| - |r|..|p| - 1] + [p[|p| - 1]];
        { assert p[|p| - |r|..|p| - 1] == init[|init| - |b|..]; }
        b + [p[|p| - 1]];
      }
    }
  }

  /** `os.path.basename((d.metadata or {}).get("source", "unknown"))`. */
  function SourceName(d: Doc): string {
    Basename(d.source.GetOr(Unknown))
  }

  /** `filenames`. */
  function SourceNames(docs: seq<Doc>): (names: seq<string>)
    ensures |names| == |docs| && forall i :: 0 <= i < |docs| ==> names[i] == SourceName(docs[i])
  {
    seq(|docs|, i requires 0 <= i < |docs| => SourceName(docs[i]))
  }

  /** Sum of the lengths of `xs`. */
  function TotalLength(xs: seq<string>): nat {
    if xs == [] then 0 else |xs[0]| + TotalLength(xs[1..])
  }

  /** `sep.join(xs)`. */
  function Join(sep: string, xs: seq<string>): (r: string)
    ensures xs == [] ==> r == []
    ensures xs != [] ==> |r| == TotalLength(xs) + |sep| * (|xs| - 1)
    ensures xs != [] ==> r[..|xs[0]|] == xs[0]
  {
    if xs == [] then []
    else if |xs| == 1 then xs[0]
    else xs[0] + sep + Join(sep, xs[1..])
  }

  /** Where `xs[k]` starts in `sep.join(xs)`: after each earlier name, and a separator after each. */
  function JoinOffset(sep: string, xs: seq<string>, k: nat): nat
    requires k <= |xs|
  {
    if k == 0 then 0 else JoinOffset(sep, xs, k - 1) + |xs[k - 1]| + |sep|
  }

  /** Offsets in `xs` are offsets in `xs[1..]` moved past the first name and its separator. */
  lemma {:induction false} JoinOffsetShift(sep: string, xs: seq<string>, k: nat)
    requires k < |xs|
    ensures JoinOffset(sep, xs, k + 1) == |xs[0]| + |sep| + JoinOffset(sep, xs[1..], k)
  {
    if k > 0 {
      JoinOffsetShift(sep, xs, k - 1);
    }
  }

  /** A slice of the part after `a` in `a + b`, shifted by `|a|`. */
  lemma SliceAfter(a: string, b: string, i: nat, j: nat)
    requires i <= j <= |b|
    ensures (a + b)[|a| + i..|a| + j] == b[i..j]
  {
    assert forall m :: i <= m < j ==> (a + b)[|a| + m] == b[m];
  }

  /** Name `k` of `xs` sits at its offset in `sep.join(xs)`. */
  lemma {:induction false} JoinNameAt(sep: string, xs: seq<string>, k: nat)
    requires k < |xs|
    ensures JoinOffset(sep, xs, k) + |xs[k]| <= |Join(sep, xs)|
    ensures Join(sep, xs)[JoinOffset(sep, xs, k)..JoinOffset(sep, xs, k) + |xs[k]|] == xs[k]
  {
    if k > 0 {
      var rest := Join(sep, xs[1..]);
      assert Join(sep, xs) == (xs[0] + sep) + rest;
      JoinNameAt(sep, xs[1..], k - 1);
      JoinOffsetShift(sep, xs, k - 1);
      var o := JoinOffset(sep, xs[1..], k - 1);
      assert xs[1..][k - 1] == xs[k];
      SliceAfter(xs[0] + sep, rest, o, o + |xs[k]|);
    } else if |xs| == 1 {
      assert Join(sep, xs) == xs[0];
    }
  }

  /** Just before name `k` of `xs`, for `k > 0`, `sep.join(xs)` holds exactly `sep`. */
  lemma {:induction false} JoinSeparatorBefore(sep: string, xs: seq<string>, k: nat)
    requires 0 < k < |xs|
    ensures |sep| <= JoinOffset(sep, xs, k) <= |Join(sep, xs)|
    ensures Join(sep, xs)[JoinOffset(sep, xs, k) - |sep|..JoinOffset(sep, xs, k)] == sep
  {
    var rest := Join(sep, xs[1..]);
    assert Join(sep, xs) == (xs[0] + sep) + rest;
    JoinOffsetShift(sep, xs, k - 1);
    if k > 1 {
      JoinSeparatorBefore(sep, xs[1..], k - 1);
      var o := JoinOffset(sep, xs[1..], k - 1);
      SliceAfter(xs[0] + sep, rest, o - |sep|, o);
    }
  }

  /** `sep.join(xs)` ends with the last name: nothing follows it. */
  lemma {:induction false} JoinEndsWithLast(sep: string, xs: seq<string>)
    requires xs != []
    ensures |Join(sep, xs)| == JoinOffset(sep, xs, |xs| - 1) + |xs[|xs| - 1]|
  {
    if |xs| >= 2 {
      JoinEndsWithLast(sep, xs[1..]);
      JoinOffsetShift(sep, xs, |xs| - 2);
    }
  }

  /** The `sources` column: `", ".join(sorted(set(filenames)))`. */
  function Sources(docs: seq<Doc>): string {
    Join(Separator, SortedSet(SourceNames(docs)))
  }

  /** `sources` depends only on which file names occur, not on their order or repetition. */
  lemma SourcesDependOnlyOnNames(d1: seq<Doc>, d2: seq<Doc>)
    requires forall n :: n in SourceNames(d1) <==> n in SourceNames(d2)
    ensures Sources(d1) == Sources(d2)
  {
    SortedSetSpec(SourceNames(d1));
    SortedSetSpec(SourceNames(d2));
    StrictlySortedUnique(SortedSet(SourceNames(d1)), SortedSet(SourceNames(d2)));
  }

  /** A name without `/` is its own basename. */
  lemma BasenameOfPlainName(p: string)
    requires forall k :: 0 <= k < |p| ==> p[k] != '/'
    ensures Basename(p) == p
  {
    BasenameSpec(p);
  }

  /** Chunks from `b.pdf`, `a.pdf` and `a.pdf` give `a.pdf, b.pdf`. */
  lemma SourcesExample(t: string)
    ensures Sources([Doc(t, Some("b.pdf")), Doc(t, Some("a.pdf")), Doc(t, Some("a.pdf"))]) == "a.pdf, b.pdf"
  {
    var docs := [Doc(t, Some("b.pdf")), Doc(t, Some("a.pdf")), Doc(t, Some("a.pdf"))];
    BasenameOfPlainName("a.pdf");
    BasenameOfPlainName("b.pdf");
    var names := SourceNames(docs);
    assert names[0] == "b.pdf" && names[1] == "a.pdf" && names[2] == "a.pdf";
    SortedSetOfTwoNames(names);
    JoinTwo();
  }

  /** Any list whose names are exactly `a.pdf` and `b.pdf` sorts and deduplicates to those two. */
  lemma SortedSetOfTwoNames(names: seq<string>)
    requires |names| == 3 && names[0] == "b.pdf" && names[1] == "a.pdf" && names[2] == "a.pdf"
    ensures SortedSet(names) == ["a.pdf", "b.pdf"]
  {
    var want := ["a.pdf", "b.pdf"];
    assert StrictlySorted(want) by {
      assert Below("a.pdf", "b.pdf");
    }
    var sorted := SortedSet(names);
    SortedSetSpec(names);
    forall n ensures n in sorted <==> n in want {
      assert n in names <==> n == names[0] || n == names[1] || n == names[2];
    }
    StrictlySortedUnique(sorted, want);
  }

  lemma JoinTwo()
    ensures Join(Separator, ["a.pdf", "b.pdf"]) == "a.pdf, b.pdf"
  {
    assert ["a.pdf", "b.pdf"][1..] == ["b.pdf"];
  }

  /** A chunk whose metadata has no source is listed as `unknown`. */
  lemma MissingSourceIsUnknown(t: string)
    ensures Sources([Doc(t, None)]) == "unknown"
  {
    BasenameOfPlainName(Unknown);
    assert SourceNames([Doc(t, None)]) == [Unknown];
    assert SortedSet([Unknown]) == [Unknown];
  }

  /** `s.replace("\n", " ")`. */
  function ReplaceNewlines(s: string): string {
    if s == [] then [] else ReplaceNewlines(s[..|s| - 1]) + [if s[|s| - 1] == '\n' then ' ' else s[|s| - 1]]
  }

  /** Replacing keeps the length and turns exactly the newlines into spaces. */
  lemma {:induction false} ReplaceNewlinesSpec(s: string)
    ensures |ReplaceNewlines(s)| == |s|
    ensures forall i :: 0 <= i < |s| ==> ReplaceNewlines(s)[i] == if s[i] == '\n' then ' ' else s[i]
  {
    if s != [] {
      ReplaceNewlinesSpec(s[..|s| - 1]);
    }
  }

  /** The `answer` column: `answer.replace("\n", " ")[:800]`. */
  function Excerpt(answer: string): string {
    var flat := ReplaceNewlines(answer);
    if |flat| <= ExcerptLength then flat else flat[..ExcerptLength]
  }

  /** The excerpt is the first 800 characters of the answer, newlines turned into spaces. */
  lemma ExcerptSpec(answer: string)
    ensures var r := Excerpt(answer);
      |r| <= ExcerptLength && '\n' !in r &&
      |r| == (if |answer| < ExcerptLength then |answer| else ExcerptLength) &&
      r == ReplaceNewlines(answer)[..|r|]
  {
    ReplaceNewlinesSpec(answer);
  }

  /** Taking the excerpt of an excerpt changes nothing. */
  lemma ExcerptIdempotent(answer: string)
    ensures Excerpt(Excerpt(answer)) == Excerpt(answer)
  {
    var e := Excerpt(answer);
    ExcerptSpec(answer);
    ExcerptSpec(e);
    ReplaceNewlinesSpec(e);
    assert forall i :: 0 <= i < |e| ==> e[i] != '\n';
  }

  /** A short answer without newlines is kept as it is. */
  lemma ExcerptKeepsShortLine(answer: string)
    ensures '\n' !in answer && |answer| <= ExcerptLength ==> Excerpt(answer) == answer
  {
    ExcerptSpec(answer);
    ReplaceNewlinesSpec(answer);
    assert forall i :: 0 <= i < |answer| ==> answer[i] in answer;
  }

  /** `grounded_strict` as defined: some quote occurs verbatim in some chunk. */
  predicate AnyQuoteInContext(quotes: seq<string>, ctx: seq<string>) {
    exists i, j :: 0 <= i < |quotes| && 0 <= j < |ctx| && IsSubstring(quotes[i], ctx[j])
  }

  /**
   * The row `eval_query` builds from the engine's output. `sem_thresh` takes
   * no part: the function has no such parameter.
   */
  function Evaluate(persona: string, query: string, out: EngineOutput, latency: real,
                    sim: (string, string) -> real): EvalResult
  {
    var answer := AnswerText(out);
    var docs := Documents(out);
    var ctx := ChunkTexts(docs);
    var quotes := QuoteTexts(answer);
    EvalResult(
      persona, query,
      Answered(answer),
      |quotes| > 0,
      AnyQuoteInContext(quotes, ctx),
      Round4(SemanticSimSpec(quotes, ctx, sim)),
      Round2(latency),
      Sources(docs),
      Excerpt(answer))
  }

  /**
   * What every row satisfies: strict grounding needs a quote, no quote means
   * similarity 0.0, the similarity stays in [-1, 1] when the embedding
   * similarity does, `answered` means a non-whitespace character, and the
   * excerpt is short and on one line.
   */
  lemma EvaluateInvariants(persona: string, query: string, out: EngineOutput, latency: real,
                           sim: (string, string) -> real)
    ensures var r := Evaluate(persona, query, out, latency, sim);
      (r.groundedStrict ==> r.hasExplicitQuote) &&
      (!r.hasExplicitQuote ==> !r.groundedStrict && r.semanticSim == 0.0) &&
      ((forall a, b :: -1.0 <= sim(a, b) <= 1.0) ==> -1.0 <= r.semanticSim <= 1.0) &&
      (r.answered <==> exists i :: 0 <= i < |AnswerText(out)| && !IsSpace(AnswerText(out)[i])) &&
      |r.answer| <= ExcerptLength && '\n' !in r.answer
  {
    AnsweredIff(AnswerText(out));
    ExcerptSpec(AnswerText(out));
    var quotes := QuoteTexts(AnswerText(out));
    Round4KeepsUnitBounds(SemanticSimSpec(quotes, ChunkTexts(Documents(out)), sim));
  }

  /**
   * `eval_query` with the engine call already made: `out` is what it
   * returned and `latency` the time measured around it.
   */
  method EvalQuery(persona: string, query: string, semThresh: real, out: EngineOutput, latency: real,
                   sim: (string, string) -> real) returns (r: EvalResult)
    ensures r == Evaluate(persona, query, out, latency, sim)
  {
    var answer := AnswerText(out);
    var docs := Documents(out);
    var ctx := ChunkTexts(docs);
    var filenames := SourceNames(docs);
    var answered := Answered(answer);
    var quotes := QuoteTexts(answer);
    var hasExplicitQuote := |quotes| > 0;
    var groundedStrict := GroundedStrict(quotes, ctx);
    var bestSim := SemanticSim(quotes, ctx, sim);
    r := EvalResult(persona, query, answered, hasExplicitQuote, groundedStrict, Round4(bestSim), Round2(latency),
                    Join(Separator, SortedSet(filenames)), Excerpt(answer));
  }

  /** An answer with no double quote: no quote, not grounded, similarity 0.0. */
  lemma NoQuoteNoEvidence(persona: string, query: string, out: EngineOutput, latency: real,
                          sim: (string, string) -> real)
    requires DQ !in AnswerText(out)
    ensures var r := Evaluate(persona, query, out, latency, sim);
      !r.hasExplicitQuote && !r.groundedStrict && r.semanticSim == 0.0
  {
    NoQuoteCharNoQuotes(AnswerText(out));
    Round4KeepsUnitBounds(0.0);
  }

  /** A quote found verbatim in a chunk makes the answer strictly grounded, whatever its similarity. */
  lemma QuoteInChunkGrounds(persona: string, query: string, out: EngineOutput, latency: real,
                            sim: (string, string) -> real, i: nat, j: nat)
    requires i < |QuoteTexts(AnswerText(out))| && j < |Documents(out)|
    requires IsSubstring(QuoteTexts(AnswerText(out))[i], Documents(out)[j].text)
    ensures Evaluate(persona, query, out, latency, sim).groundedStrict
  {
    assert ChunkTexts(Documents(out))[j] == Documents(out)[j].text;
  }

  /**
   * An answer quoting one admissible span that a chunk contains verbatim is
   * answered, quoting and strictly grounded, and its similarity is the best
   * one of that span against the chunks, rounded.
   */
  lemma QuotedAnswerScenario(persona: string, query: string, pre: string, q: string, post: string,
                             docs: seq<Doc>, latency: real, sim: (string, string) -> real, j: nat)
    requires DQ !in pre && DQ !in q && DQ !in post && MinQuote <= |q| <= MaxQuote
    requires j < |docs| && IsSubstring(q, docs[j].text)
    ensures var r := Evaluate(persona, query, EngineOutput(Some(pre + [DQ] + q + [DQ] + post), Some(docs)), latency, sim);
      r.answered && r.hasExplicitQuote && r.groundedStrict &&
      r.semanticSim == Round4(MaxSim(q, ChunkTexts(docs), sim)) &&
      IsMaxOver(MaxSim(q, ChunkTexts(docs), sim), q, ChunkTexts(docs), sim) &&
      Round4(sim(q, docs[j].text)) <= r.semanticSim
  {
    var answer := pre + [DQ] + q + [DQ] + post;
    var out := EngineOutput(Some(answer), Some(docs));
    SingleQuoteAnswered(pre, q, post);
    QuoteInChunkGrounds(persona, query, out, latency, sim, 0, j);
    var ctx := ChunkTexts(docs);
    assert ctx[j] == docs[j].text;
    assert LongestIndex([q]) == 0;
    assert SemanticSimSpec([q], ctx, sim) == MaxSim(q, ctx, sim);
    Round4Monotone(sim(q, docs[j].text), MaxSim(q, ChunkTexts(docs), sim));
  }

  /** An answer quoting one admissible span is answered and yields that span as its only quote. */
  lemma SingleQuoteAnswered(pre: string, q: string, post: string)
    requires DQ !in pre && DQ !in q && DQ !in post && MinQuote <= |q| <= MaxQuote
    ensures QuoteTexts(pre + [DQ] + q + [DQ] + post) == [q]
    ensures Answered(pre + [DQ] + q + [DQ] + post)
  {
    var answer := pre + [DQ] + q + [DQ] + post;
    SingleQuote(pre, q, post);
    assert !IsSpace(answer[|pre|]);
    AnsweredIff(answer);
  }

  /**
   * A policy sentence, "Do not leave a signature-required parcel
   * unattended.", written in pieces so that facts about its characters stay
   * cheap to check.
   */
  const ParcelSentence: string := "Do not leave a " + "signature-required " + "parcel unattended."
  /** An answer that quotes that sentence after a short lead-in. */
  const ParcelAnswer: string := "The SOP states: " + [DQ] + ParcelSentence + [DQ] + " "

  /**
   * An answer quoting the policy sentence that its only retrieved chunk
   * holds: answered, quoting, strictly grounded, and as similar as the
   * sentence is to itself.
   */
  lemma SignatureParcelScenario(persona: string, query: string, answer: string, sentence: string,
                                src: Option<string>, latency: real, sim: (string, string) -> real)
    requires answer == ParcelAnswer && sentence == ParcelSentence
    ensures var r := Evaluate(persona, query, EngineOutput(Some(answer), Some([Doc(sentence, src)])), latency, sim);
      r.answered && r.hasExplicitQuote && r.groundedStrict && r.semanticSim == Round4(sim(sentence, sentence))
  {
    ParcelSentenceQuoteFree(sentence);
    assert sentence <= sentence[0..];
    QuotedAnswerScenario(persona, query, "The SOP states: ", sentence, " ", [Doc(sentence, src)], latency, sim, 0);
  }

  lemma ParcelSentenceQuoteFree(sentence: string)
    requires sentence == ParcelSentence
    ensures DQ !in sentence
  {
  }
}
