/**
 * The emotion tally of `analyze_comments_with_model`: for every comment,
 * every emotion that text2emotion scores above zero adds one to that
 * emotion's count. The scorer itself is an oracle.
 */
module Emotions {
  import Counters

  /** No emotion is named twice, as in the dict text2emotion returns. */
  predicate DistinctNames(scores: seq<(string, real)>)
  {
    forall i, j :: 0 <= i < j < |scores| ==> scores[i].0 != scores[j].0
  }

  /** `te.get_emotion(comment).items()`: the (emotion, score) pairs of one comment. */
  type EmotionScores = s: seq<(string, real)> | DistinctNames(s)

  /** Some pair of `scores` names `e` with a score above zero. */
  function ScoresPositive(scores: seq<(string, real)>, e: string): bool
  {
    if scores == [] then false
    else ScoresPositive(scores[..|scores| - 1], e) || (scores[|scores| - 1].0 == e && scores[|scores| - 1].1 > 0.0)
  }

  /** The inner loop: `emotion_counts[emotion] += 1` for each pair whose score is above zero. */
  function AddPositive(c: Counters.Counter<string>, scores: seq<(string, real)>): Counters.Counter<string>
  {
    if scores == [] then c
    else
      var before := AddPositive(c, scores[..|scores| - 1]);
      var last := scores[|scores| - 1];
      if last.1 > 0.0 then Counters.Increment(before, last.0) else before
  }

  /** The counter after the outer loop has seen every comment. */
  function EmotionCounts(emotionsOf: string -> EmotionScores, comments: seq<string>): Counters.Counter<string>
  {
    if comments == [] then []
    else AddPositive(EmotionCounts(emotionsOf, comments[..|comments| - 1]), emotionsOf(comments[|comments| - 1]))
  }

  /** The number of comments that score `e` above zero. */
  function CommentsScoring(emotionsOf: string -> EmotionScores, comments: seq<string>, e: string): nat
  {
    if comments == [] then 0
    else CommentsScoring(emotionsOf, comments[..|comments| - 1], e) + (if ScoresPositive(emotionsOf(comments[|comments| - 1]), e) then 1 else 0)
  }

  /** The nested emotion-count loops of `analyze_comments_with_model`. */
  method CountEmotions(comments: seq<string>, emotionsOf: string -> EmotionScores) returns (counts: Counters.Counter<string>)
    ensures counts == EmotionCounts(emotionsOf, comments)
  {
    counts := [];
    for i := 0 to |comments|
      invariant counts == EmotionCounts(emotionsOf, comments[..i])
    {
      var emotions := emotionsOf(comments[i]);
      ghost var start := counts;
      for j := 0 to |emotions|
        invariant counts == AddPositive(start, emotions[..j])
      {
        var (emotion, score) := emotions[j];
        assert emotions[..j + 1][..j] == emotions[..j];
        if score > 0.0 {
          counts := Counters.Increment(counts, emotion);
        }
      }
      assert emotions[..|emotions|] == emotions;
      assert comments[..i + 1][..i] == comments[..i];
    }
    assert comments[..|comments|] == comments;
  }

  /** One comment adds one to each emotion it scores above zero, and nothing else. */
  lemma {:induction false} AddPositiveSpec(c: Counters.Counter<string>, scores: seq<(string, real)>)
    requires Counters.Valid(c) && DistinctNames(scores)
    ensures Counters.Valid(AddPositive(c, scores))
    ensures forall e :: Counters.Get(AddPositive(c, scores), e) == Counters.Get(c, e) + (if ScoresPositive(scores, e) then 1 else 0)
  {
    if scores != [] {
      var init := scores[..|scores| - 1];
      var last := scores[|scores| - 1];
      AddPositiveSpec(c, init);
      var before := AddPositive(c, init);
      if last.1 > 0.0 {
        Counters.IncrementSpec(before, last.0);
      }
      forall e | e == last.0
        ensures !ScoresPositive(init, e)
      {
        NotNamed(init, e);
      }
    }
  }

  /** An emotion no pair names is not scored above zero. */
  lemma {:induction false} NotNamed(scores: seq<(string, real)>, e: string)
    requires forall k :: 0 <= k < |scores| ==> scores[k].0 != e
    ensures !ScoresPositive(scores, e)
  {
    if scores != [] {
      NotNamed(scores[..|scores| - 1], e);
    }
  }

  /** An emotion's count is the number of comments that score it above zero. */
  lemma {:induction false} EmotionCountsSpec(emotionsOf: string -> EmotionScores, comments: seq<string>)
    ensures Counters.Valid(EmotionCounts(emotionsOf, comments))
    ensures forall e :: Counters.Get(EmotionCounts(emotionsOf, comments), e) == CommentsScoring(emotionsOf, comments, e)
  {
    if comments != [] {
      EmotionCountsSpec(emotionsOf, comments[..|comments| - 1]);
      AddPositiveSpec(EmotionCounts(emotionsOf, comments[..|comments| - 1]), emotionsOf(comments[|comments| - 1]));
    }
  }

  lemma {:induction false} CommentsScoringBound(emotionsOf: string -> EmotionScores, comments: seq<string>, e: string)
    ensures CommentsScoring(emotionsOf, comments, e) <= |comments|
  {
    if comments != [] {
      CommentsScoringBound(emotionsOf, comments[..|comments| - 1], e);
    }
  }

  /**
   * No count exceeds the number of comments, and an emotion is a key of
   * the counter exactly when some comment scores it above zero.
   */
  lemma EmotionCountsBounds(emotionsOf: string -> EmotionScores, comments: seq<string>, e: string)
    ensures Counters.Get(EmotionCounts(emotionsOf, comments), e) <= |comments|
    ensures e in Counters.Keys(EmotionCounts(emotionsOf, comments)) <==> CommentsScoring(emotionsOf, comments, e) > 0
  {
    EmotionCountsSpec(emotionsOf, comments);
    CommentsScoringBound(emotionsOf, comments, e);
    Counters.PresentIffPositive(EmotionCounts(emotionsOf, comments), e);
  }
}
