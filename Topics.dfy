/**
 * The topic-count search `determine_optimal_topics` and the construction of
 * the topic list from the winning LDA model. Training and `c_v` coherence
 * are foreign (gensim): the coherence of the model trained with a given
 * number of topics is an oracle, and so is the model's `show_topic`.
 */
module Topics {
  import opened Wrappers
  import opened PyStr

  // ------------------------------------------------------------ the search

  /** `range(start, stop, step)` for a step that is not zero. */
  function Range(start: int, stop: int, step: int): seq<int>
    requires step != 0
    decreases if step > 0 then stop - start else start - stop
  {
    if (step > 0 && start < stop) || (step < 0 && start > stop) then [start] + Range(start + step, stop, step)
    else []
  }

  /** The `i`-th count of a range is `start + i * step`. */
  lemma {:induction false} RangeAt(start: int, stop: int, step: int, i: nat)
    requires step != 0 && i < |Range(start, stop, step)|
    ensures Range(start, stop, step)[i] == start + i * step
    decreases if step > 0 then stop - start else start - stop
  {
    if i > 0 {
      RangeAt(start + step, stop, step, i - 1);
    }
  }

  /** With a positive step every count lies in `[start, stop)`. */
  lemma {:induction false} RangeBounds(start: int, stop: int, step: int)
    requires step > 0
    ensures forall v :: v in Range(start, stop, step) ==> start <= v < stop
    decreases stop - start
  {
    if start < stop {
      RangeBounds(start + step, stop, step);
    }
  }

  /** The coherence of each count, in range order; `None` if training or scoring raises for one of them. */
  function Scores(counts: seq<int>, coherence: int -> Option<real>): (r: Option<seq<real>>)
    ensures r.Some? <==> forall i :: 0 <= i < |counts| ==> coherence(counts[i]).Some?
    ensures r.Some? ==> |r.value| == |counts|
    ensures r.Some? ==> forall i :: 0 <= i < |counts| ==> r.value[i] == coherence(counts[i]).value
  {
    if counts == [] then Some([])
    else
      match coherence(counts[0])
      case None => None
      case Some(c) =>
        match Scores(counts[1..], coherence)
        case None => None
        case Some(rest) => Some([c] + rest)
  }

  /** Every count of the search can be trained and scored. */
  predicate AllScored(counts: seq<int>, coherence: int -> Option<real>)
  {
    forall i :: 0 <= i < |counts| ==> coherence(counts[i]).Some?
  }

  /** `scores.index(max(scores))`: the first position of the largest score. */
  function FirstArgMax(scores: seq<real>): (k: nat)
    requires |scores| > 0
    ensures k < |scores|
    ensures forall j :: 0 <= j < |scores| ==> scores[j] <= scores[k]
    ensures forall j :: 0 <= j < k ==> scores[j] < scores[k]
  {
    if |scores| == 1 then 0
    else
      var k := FirstArgMax(scores[..|scores| - 1]);
      if scores[|scores| - 1] > scores[k] then |scores| - 1 else k
  }

  /** The count returned when the search raises: an empty range, a zero step, or a failing model. */
  const FallbackTopics: int := 5

  /** What `determine_optimal_topics(..., start, limit, step)` returns. */
  function OptimalTopics(start: int, limit: int, step: int, coherence: int -> Option<real>): int
  {
    if step == 0 then FallbackTopics
    else
      match Scores(Range(start, limit + 1, step), coherence)
      case None => FallbackTopics
      case Some(s) => if s == [] then FallbackTopics else start + FirstArgMax(s) * step
  }

  /** `determine_optimal_topics`: scores every count of the range in turn, then maps the first best index back to a count. */
  method DetermineOptimalTopics(start: int, limit: int, step: int, coherence: int -> Option<real>) returns (n: int)
    ensures n == OptimalTopics(start, limit, step, coherence)
  {
    if step == 0 {
      // range() raises ValueError
      return FallbackTopics;
    }
    var counts := Range(start, limit + 1, step);
    var scores: seq<real> := [];
    for i := 0 to |counts|
      invariant |scores| == i
      invariant forall j :: 0 <= j < i ==> coherence(counts[j]) == Some(scores[j])
    {
      match coherence(counts[i]) {
        case None =>
          return FallbackTopics;
        case Some(c) =>
          scores := scores + [c];
      }
    }
    assert forall j :: 0 <= j < |counts| ==> coherence(counts[j]).Some?;
    assert Scores(counts, coherence).value == scores;
    if scores == [] {
      // max() of an empty sequence raises ValueError
      return FallbackTopics;
    }
    n := start + FirstArgMax(scores) * step;
  }

  lemma MulStrictMonotone(j: int, k: int, step: int)
    requires step > 0
    ensures j < k <==> j * step < k * step
  {
    assert k * step - j * step == (k - j) * step;
  }

  /**
   * With a positive step and every model scored, the result is the count in
   * the range with the highest coherence, and the smallest such count on a
   * tie.
   */
  lemma OptimalTopicsBest(start: int, limit: int, step: int, coherence: int -> Option<real>)
    requires step > 0
    requires Range(start, limit + 1, step) != []
    requires AllScored(Range(start, limit + 1, step), coherence)
    ensures var n := OptimalTopics(start, limit, step, coherence);
      && n in Range(start, limit + 1, step)
      && start <= n <= limit
      && (exists k: nat :: n == start + k * step)
      && (forall c :: c in Range(start, limit + 1, step) ==> coherence(c).value <= coherence(n).value)
      && (forall c :: c in Range(start, limit + 1, step) && c < n ==> coherence(c).value < coherence(n).value)
  {
    var counts := Range(start, limit + 1, step);
    RangeBounds(start, limit + 1, step);
    var s := Scores(counts, coherence).value;
    var k := FirstArgMax(s);
    var n := start + k * step;
    assert OptimalTopics(start, limit, step, coherence) == n;
    RangeAt(start, limit + 1, step, k);
    assert counts[k] == n;
    forall c | c in counts
      ensures coherence(c).value <= coherence(n).value
      ensures c < n ==> coherence(c).value < coherence(n).value
    {
      var j :| 0 <= j < |counts| && counts[j] == c;
      RangeAt(start, limit + 1, step, j);
      MulStrictMonotone(j, k, step);
    }
  }

  /** An empty range, or a model that cannot be trained or scored, gives the fallback 5. */
  lemma OptimalTopicsFallback(start: int, limit: int, step: int, coherence: int -> Option<real>)
    requires step != 0
    requires Range(start, limit + 1, step) == [] || !AllScored(Range(start, limit + 1, step), coherence)
    ensures OptimalTopics(start, limit, step, coherence) == FallbackTopics
  {
  }

  /** With the defaults `start=2, limit=10, step=1` the count is always between 2 and 10. */
  lemma DefaultSearchBounded(coherence: int -> Option<real>)
    ensures 2 <= OptimalTopics(2, 10, 1, coherence) <= 10
  {
    if AllScored(Range(2, 11, 1), coherence) {
      OptimalTopicsBest(2, 10, 1, coherence);
    }
  }

  // ----------------------------------------------------- the topic list

  /** A topic of the result: its index, its shown words and their total probability. */
  datatype Topic = Topic(id: nat, words: seq<string>, weight: real)

  /** `lda_model.show_topic(idx, topn=10)`: at most ten (word, probability) pairs. */
  type ShownTopic = s: seq<(string, real)> | |s| <= 10

  /** `[word for word, prob in topic]`: the shown words, in order, so never more than ten. */
  function WordsOf(terms: ShownTopic): (ws: seq<string>)
    ensures |ws| == |terms| <= 10
    ensures forall i :: 0 <= i < |terms| ==> ws[i] == terms[i].0
  {
    if terms == [] then [] else [terms[0].0] + WordsOf(terms[1..])
  }

  /** `sum([prob for word, prob in topic])`. */
  function ProbabilitySum(terms: seq<(string, real)>): real
  {
    if terms == [] then 0.0 else terms[0].1 + ProbabilitySum(terms[1..])
  }

  /**
   * The `top_topics` loop: one topic per index of `range(numTopics)`, in
   * index order (no sorting by weight).
   */
  method BuildTopics(numTopics: int, showTopic: nat -> ShownTopic) returns (topics: seq<Topic>)
    ensures |topics| == Max(numTopics, 0)
    ensures forall i :: 0 <= i < |topics| ==> topics[i].id == i
    ensures forall i :: 0 <= i < |topics| ==> topics[i].words == WordsOf(showTopic(i)) && |topics[i].words| <= 10
    ensures forall i :: 0 <= i < |topics| ==> topics[i].weight == ProbabilitySum(showTopic(i))
  {
    topics := [];
    var idx := 0;
    while idx < numTopics
      invariant 0 <= idx == |topics| <= Max(numTopics, 0)
      invariant forall i :: 0 <= i < idx ==> topics[i] == Topic(i, WordsOf(showTopic(i)), ProbabilitySum(showTopic(i)))
    {
      var topic := showTopic(idx);
      topics := topics + [Topic(idx, WordsOf(topic), ProbabilitySum(topic))];
      idx := idx + 1;
    }
  }

  /** With non-negative probabilities, a weight lies between 0 and 10 times the largest probability shown. */
  lemma {:induction false} WeightBounds(terms: seq<(string, real)>, top: real)
    requires forall i :: 0 <= i < |terms| ==> 0.0 <= terms[i].1 <= top
    ensures 0.0 <= ProbabilitySum(terms) <= |terms| as real * top
  {
    if terms != [] {
      WeightBounds(terms[1..], top);
    }
  }
}
