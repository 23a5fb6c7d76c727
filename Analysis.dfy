/**
 * How `analyze_comments_with_model` wires the sentiment steps together:
 * every comment is normalised first, the classifier sees the normalised
 * text, and the label counts and the summary are built from those labels
 * against the number of raw comments.
 */
module Analysis {
  import opened Wrappers
  import Counters
  import Normalizer
  import Sentiment
  import Render

  /** `[preprocess_text(comment) for comment in comments]`. */
  function ProcessedComments(lib: Normalizer.TextLib, comments: seq<string>): (ps: seq<string>)
    ensures |ps| == |comments|
    ensures forall i :: 0 <= i < |comments| ==> ps[i] == Normalizer.Preprocess(lib, comments[i])
  {
    if comments == [] then []
    else ProcessedComments(lib, comments[..|comments| - 1]) + [Normalizer.Preprocess(lib, comments[|comments| - 1])]
  }

  /** `Counter([classify_comment(c) for c in processed_comments])`. */
  function SentimentCounts(lib: Normalizer.TextLib, polarityOf: string -> Option<real>, comments: seq<string>): Counters.Counter<Sentiment.Label>
  {
    Sentiment.ClassificationCounts(polarityOf, ProcessedComments(lib, comments))
  }

  /**
   * One count per label that occurs, each the number of comments whose
   * normalised text gets that label; the counts add up to the number of
   * comments, and there are none exactly when there are no comments.
   */
  lemma SentimentCountsSpec(lib: Normalizer.TextLib, polarityOf: string -> Option<real>, comments: seq<string>)
    ensures Counters.Valid(SentimentCounts(lib, polarityOf, comments))
    ensures Counters.Total(SentimentCounts(lib, polarityOf, comments)) == |comments|
    ensures forall l ::
      Counters.Get(SentimentCounts(lib, polarityOf, comments), l) == Counters.Occurrences(Sentiment.ClassifyAll(polarityOf, ProcessedComments(lib, comments)), l)
    ensures SentimentCounts(lib, polarityOf, comments) == [] <==> comments == []
  {
  }

  /** A comment whose normalisation fails is classified as the empty text is. */
  lemma FailedNormalisationClassifiesEmptyText(lib: Normalizer.TextLib, polarityOf: string -> Option<real>, comments: seq<string>, i: nat)
    requires i < |comments| && Normalizer.ProcessedTokens(lib, comments[i]).None?
    ensures Sentiment.ClassifyAll(polarityOf, ProcessedComments(lib, comments))[i] == Sentiment.Classify(polarityOf(""))
  {
  }

  /**
   * The summary of the analysis is never the error text `''`: the total is
   * the number of comments, which is zero only when there are no categories.
   */
  lemma AnalysisSummaryNotEmpty(lib: Normalizer.TextLib, polarityOf: string -> Option<real>, comments: seq<string>, fmt: real -> string)
    ensures Render.SummaryText(SentimentCounts(lib, polarityOf, comments), |comments|, fmt) != ""
  {
    SentimentCountsSpec(lib, polarityOf, comments);
    Render.SummaryErrorCase(SentimentCounts(lib, polarityOf, comments), |comments|, fmt);
  }

  /** For at least one comment, the percentages of the summary add up to 100. */
  lemma AnalysisPercentagesSumTo100(lib: Normalizer.TextLib, polarityOf: string -> Option<real>, comments: seq<string>)
    requires comments != []
    ensures Render.PercentSum(SentimentCounts(lib, polarityOf, comments), |comments|) == 100.0
  {
    SentimentCountsSpec(lib, polarityOf, comments);
    Render.PercentagesSumTo100(SentimentCounts(lib, polarityOf, comments), |comments|);
  }
}
