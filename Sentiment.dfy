/**
 * The sentiment classifier `classify_comment` and the label counts built
 * from it: a polarity above 0.1 is Positive, below -0.1 Negative, anything
 * else (the bounds included, and a failing scorer) Neutral.
 */
module Sentiment {
  import opened Wrappers
  import Counters

  datatype Label = Positive | Negative | Neutral

  /** `f"{category}"` for a label. */
  function LabelText(l: Label): string
  {
    match l
    case Positive => "Positive"
    case Negative => "Negative"
    case Neutral => "Neutral"
  }

  /**
   * The Python literal `0.1` is the double 3602879701896397 / 2^55, a little
   * above one tenth; a polarity equal to that double is not above it.
   */
  const Threshold: real := 3602879701896397.0 / 36028797018963968.0

  /**
   * The three-way threshold applied to a TextBlob polarity; `None` is a
   * scorer that raised.
   */
  function Classify(polarity: Option<real>): (l: Label)
    ensures l == Positive <==> polarity.Some? && polarity.value > Threshold
    ensures l == Negative <==> polarity.Some? && polarity.value < -Threshold
    ensures l == Neutral <==> polarity.None? || -Threshold <= polarity.value <= Threshold
  {
    match polarity
    case None => Neutral
    case Some(p) =>
      if p > Threshold then Positive
      else if p < -Threshold then Negative
      else Neutral
  }

  /** `classify_comment(comment)`, with TextBlob's polarity as an oracle. */
  function ClassifyComment(polarityOf: string -> Option<real>, comment: string): Label
  {
    Classify(polarityOf(comment))
  }

  /** `[classify_comment(t) for t in texts]`. */
  function ClassifyAll(polarityOf: string -> Option<real>, texts: seq<string>): (ls: seq<Label>)
    ensures |ls| == |texts|
    ensures forall i :: 0 <= i < |texts| ==> ls[i] == ClassifyComment(polarityOf, texts[i])
  {
    if texts == [] then []
    else ClassifyAll(polarityOf, texts[..|texts| - 1]) + [ClassifyComment(polarityOf, texts[|texts| - 1])]
  }

  /**
   * `Counter(classifications)`: one entry per label that occurs, in the
   * order labels first occur, with values summing to the number of texts.
   */
  function ClassificationCounts(polarityOf: string -> Option<real>, texts: seq<string>): (c: Counters.Counter<Label>)
    ensures Counters.Valid(c)
    ensures Counters.Total(c) == |texts|
    ensures forall l :: Counters.Get(c, l) == Counters.Occurrences(ClassifyAll(polarityOf, texts), l)
    ensures Counters.Keys(c) == Counters.FirstSeen(ClassifyAll(polarityOf, texts))
    ensures c == [] <==> texts == []
  {
    var labels := ClassifyAll(polarityOf, texts);
    Counters.CounterOfSpec(labels);
    Counters.FirstSeenMembers(labels);
    Counters.CounterOf(labels)
  }
}
