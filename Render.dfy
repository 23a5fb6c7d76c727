/**
 * The text the analysis hands back to the page: the plain-text summary of
 * the sentiment counts, the three HTML fragments (classification, topics,
 * key phrases) and the label and weight series of the topics bar chart.
 *
 * Percentages are the exact quotient `count * 100 / total`; how Python's
 * `{:.1f}` prints one is the parameter `fmt`.
 */
module Render {
  import opened Wrappers
  import opened PyStr
  import Counters
  import opened Sentiment
  import opened Topics

  /** `(count / total) * 100`. */
  function Percent(count: nat, total: nat): real
    requires total > 0
  {
    (count as real / total as real) * 100.0
  }

  /** The sum of the percentages of every entry of `counts` against `total`. */
  function PercentSum(counts: Counters.Counter<Label>, total: nat): real
    requires total > 0
  {
    if counts == [] then 0.0 else Percent(counts[0].1, total) + PercentSum(counts[1..], total)
  }

  /** The percentages add up to the counts' own total against `total`. */
  lemma {:induction false} PercentSumScales(counts: Counters.Counter<Label>, total: nat)
    requires total > 0
    ensures PercentSum(counts, total) == (Counters.Total(counts) as real / total as real) * 100.0
  {
    if counts != [] {
      PercentSumScales(counts[1..], total);
      var a := counts[0].1 as real;
      var b := Counters.Total(counts[1..]) as real;
      var t := total as real;
      assert a / t + b / t == (a + b) / t;
    }
  }

  /** When `total` is the sum of the counts, the percentages of a non-empty counter add up to 100. */
  lemma PercentagesSumTo100(counts: Counters.Counter<Label>, total: nat)
    requires total > 0 && Counters.Total(counts) == total
    ensures PercentSum(counts, total) == 100.0
  {
    PercentSumScales(counts, total);
  }

  /** A rendering of `{:.1f}` never contains a line break. */
  ghost predicate SingleLine(fmt: real -> string)
  {
    forall r :: '\n' !in fmt(r)
  }

  // ----------------------------------------------------------- summary

  /** The first line of the summary, without its newline. */
  function HeaderLine(total: nat): string
  {
    "Analysis of " + NatToString(total) + " comments:"
  }

  /** `- {category}: {count} ({percentage:.1f}%)`, without its newline. */
  function SummaryLine(entry: (Label, nat), total: nat, fmt: real -> string): string
    requires total > 0
  {
    "- " + LabelText(entry.0) + ": " + NatToString(entry.1) + " (" + fmt(Percent(entry.1, total)) + "%)"
  }

  /** One summary line per entry, in the counter's iteration order. */
  function SummaryLines(counts: Counters.Counter<Label>, total: nat, fmt: real -> string): (ls: seq<string>)
    requires total > 0
    ensures |ls| == |counts|
    ensures forall i :: 0 <= i < |counts| ==> ls[i] == SummaryLine(counts[i], total, fmt)
  {
    if counts == [] then []
    else SummaryLines(counts[..|counts| - 1], total, fmt) + [SummaryLine(counts[|counts| - 1], total, fmt)]
  }

  /**
   * What `generate_summary(counts, total)` returns: the header and one line
   * per category, each ending in a newline; `''` when the first percentage
   * divides by a zero total.
   */
  function SummaryText(counts: Counters.Counter<Label>, total: nat, fmt: real -> string): string
  {
    if counts == [] then Terminated([HeaderLine(total)])
    else if total == 0 then ""
    else Terminated([HeaderLine(total)] + SummaryLines(counts, total, fmt))
  }

  /** `generate_summary`: appends one line per category to the header. */
  method GenerateSummary(counts: Counters.Counter<Label>, total: nat, fmt: real -> string) returns (summary: string)
    ensures summary == SummaryText(counts, total, fmt)
  {
    summary := HeaderLine(total) + "\n";
    assert summary == Terminated([HeaderLine(total)]);
    for i := 0 to |counts|
      invariant total == 0 ==> i == 0
      invariant total == 0 ==> summary == Terminated([HeaderLine(total)])
      invariant total > 0 ==> summary == Terminated([HeaderLine(total)] + SummaryLines(counts[..i], total, fmt))
    {
      if total == 0 {
        // count / total_comments raises ZeroDivisionError
        return "";
      }
      var line := SummaryLine(counts[i], total, fmt);
      SummaryLinesStep(counts, total, fmt, i);
      TerminatedAppend([HeaderLine(total)] + SummaryLines(counts[..i], total, fmt), line);
      summary := summary + line + "\n";
    }
    assert counts[..|counts|] == counts;
  }

  lemma SummaryLinesStep(counts: Counters.Counter<Label>, total: nat, fmt: real -> string, i: nat)
    requires total > 0 && i < |counts|
    ensures [HeaderLine(total)] + SummaryLines(counts[..i + 1], total, fmt)
      == [HeaderLine(total)] + SummaryLines(counts[..i], total, fmt) + [SummaryLine(counts[i], total, fmt)]
  {
    assert counts[..i + 1][..i] == counts[..i];
  }

  /** The summary is `''` exactly when there are categories and the total is zero. */
  lemma SummaryErrorCase(counts: Counters.Counter<Label>, total: nat, fmt: real -> string)
    ensures SummaryText(counts, total, fmt) == "" <==> counts != [] && total == 0
  {
    if counts == [] || total > 0 {
      var lines := if counts == [] then [HeaderLine(total)] else [HeaderLine(total)] + SummaryLines(counts, total, fmt);
      assert |Terminated(lines)| > 0;
    }
  }

  /**
   * Read back line by line, a summary gives the header, then one line per
   * category in order, then the empty text after the last newline.
   */
  lemma SummaryReadsBack(counts: Counters.Counter<Label>, total: nat, fmt: real -> string)
    requires total > 0 && SingleLine(fmt)
    ensures Split(SummaryText(counts, total, fmt), "\n") == [HeaderLine(total)] + SummaryLines(counts, total, fmt) + [""]
  {
    var lines := [HeaderLine(total)] + SummaryLines(counts, total, fmt);
    SummaryLinesSingle(counts, total, fmt);
    NoNewlineInNumber(total);
    NoBreaksCons(HeaderLine(total), SummaryLines(counts, total, fmt));
    SplitTerminated(lines);
  }

  lemma SummaryLinesSingle(counts: Counters.Counter<Label>, total: nat, fmt: real -> string)
    requires total > 0 && SingleLine(fmt)
    ensures NoBreaks(SummaryLines(counts, total, fmt))
  {
    forall k | 0 <= k < |counts|
      ensures '\n' !in SummaryLines(counts, total, fmt)[k]
    {
      SummaryLineSingle(counts[k], total, fmt);
    }
  }

  /** No line contains a newline. */
  predicate NoBreaks(lines: seq<string>)
  {
    forall k :: 0 <= k < |lines| ==> '\n' !in lines[k]
  }

  lemma NoBreaksCons(h: string, lines: seq<string>)
    requires '\n' !in h && NoBreaks(lines)
    ensures NoBreaks([h] + lines)
  {
    assert forall k :: 1 <= k < |lines| + 1 ==> ([h] + lines)[k] == lines[k - 1];
  }

  /** An empty counter gives the header line alone. */
  lemma SummaryOfNoCategories(total: nat, fmt: real -> string)
    ensures Split(SummaryText([], total, fmt), "\n") == [HeaderLine(total), ""]
  {
    NoNewlineInNumber(total);
    SplitTerminated([HeaderLine(total)]);
  }

  lemma SummaryLineSingle(e: (Label, nat), total: nat, fmt: real -> string)
    requires total > 0 && SingleLine(fmt)
    ensures '\n' !in SummaryLine(e, total, fmt)
  {
    NoNewlineInNumber(e.1);
    assert '\n' !in fmt(Percent(e.1, total));
  }

  lemma NoNewlineInNumber(n: nat)
    ensures '\n' !in NatToString(n)
  {
    var s := NatToString(n);
    assert forall k :: 0 <= k < |s| ==> s[k] != '\n';
  }

  // ------------------------------------------------------- HTML lists

  /** `<li>body</li>` for every body, in order. */
  function ListItems(bodies: seq<string>): string
  {
    if bodies == [] then "" else "<li>" + bodies[0] + "</li>" + ListItems(bodies[1..])
  }

  lemma {:induction false} ListItemsAppend(bodies: seq<string>, b: string)
    ensures ListItems(bodies + [b]) == ListItems(bodies) + "<li>" + b + "</li>"
  {
    if bodies == [] {
      assert bodies + [b] == [b];
    } else {
      ListItemsAppend(bodies[1..], b);
      assert (bodies + [b])[1..] == bodies[1..] + [b];
    }
  }

  /** Appending one more item to an open list that holds `bodies`. */
  lemma OpenListAppend(html: string, bodies: seq<string>, b: string)
    requires html == "<ul>" + ListItems(bodies)
    ensures html + "<li>" + b + "</li>" == "<ul>" + ListItems(bodies + [b])
  {
    ListItemsAppend(bodies, b);
  }

  /** `<ul>`, the list items, `</ul>`. */
  function Ul(bodies: seq<string>): string
  {
    "<ul>" + ListItems(bodies) + "</ul>"
  }

  /** Reads a run of `<li>…</li>` items, each body ending at the first `</li>`. */
  function ParseItems(s: string): Option<seq<string>>
    decreases |s|
  {
    if s == [] then Some([])
    else if |s| >= 4 && s[..4] == "<li>" then
      match Find(s[4..], "</li>")
      case None => None
      case Some(i) =>
        match ParseItems(s[4 + i + 5..])
        case None => None
        case Some(rest) => Some([s[4..4 + i]] + rest)
    else None
  }

  /** Reads an HTML list back into its item bodies. */
  function ParseUl(html: string): Option<seq<string>>
  {
    if |html| >= 9 && html[..4] == "<ul>" && html[|html| - 5..] == "</ul>" then ParseItems(html[4..|html| - 5])
    else None
  }

  predicate NoTag(s: string) { forall k :: 0 <= k < |s| ==> s[k] != '<' }

  lemma {:induction false} ParseListItems(bodies: seq<string>)
    requires forall i :: 0 <= i < |bodies| ==> NoTag(bodies[i])
    ensures ParseItems(ListItems(bodies)) == Some(bodies)
  {
    if bodies != [] {
      var b := bodies[0];
      var rest := ListItems(bodies[1..]);
      var s := ListItems(bodies);
      assert s == "<li>" + (b + "</li>" + rest);
      assert s[4..] == b + "</li>" + rest;
      assert s[..4] == "<li>";
      FindAfterFree(b, "</li>", rest);
      assert Find(s[4..], "</li>") == Some(|b|);
      assert s[4..4 + |b|] == b;
      assert s[4 + |b| + 5..] == rest;
      ParseListItems(bodies[1..]);
      assert ParseItems(s) == Some([b] + bodies[1..]);
      assert [b] + bodies[1..] == bodies;
    } else {
      assert ListItems(bodies) == "";
    }
  }

  /** An HTML list of bodies without `<` reads back as those bodies. */
  lemma UlReadsBack(bodies: seq<string>)
    requires forall i :: 0 <= i < |bodies| ==> NoTag(bodies[i])
    ensures ParseUl(Ul(bodies)) == Some(bodies)
  {
    var html := Ul(bodies);
    assert html[4..|html| - 5] == ListItems(bodies);
    ParseListItems(bodies);
  }

  // --------------------------------------------------- classification

  const ClassificationError := "<p>Error generating classification HTML.</p>"

  /** `<strong>{category}:</strong> {count} ({percentage:.1f}%)`. */
  function ClassificationItem(entry: (Label, nat), sum: nat, fmt: real -> string): string
    requires sum > 0
  {
    "<strong>" + LabelText(entry.0) + ":</strong> " + NatToString(entry.1) + " (" + fmt(Percent(entry.1, sum)) + "%)"
  }

  function ClassificationItems(counts: Counters.Counter<Label>, sum: nat, fmt: real -> string): (bs: seq<string>)
    requires sum > 0
    ensures |bs| == |counts|
    ensures forall i :: 0 <= i < |counts| ==> bs[i] == ClassificationItem(counts[i], sum, fmt)
  {
    if counts == [] then []
    else ClassificationItems(counts[..|counts| - 1], sum, fmt) + [ClassificationItem(counts[|counts| - 1], sum, fmt)]
  }

  /**
   * What `classification_html_func(counts)` returns: one item per category,
   * each percentage taken against the sum of all counts; the error paragraph
   * when that sum is zero and there is a category to divide for.
   */
  function ClassificationHtml(counts: Counters.Counter<Label>, fmt: real -> string): string
  {
    if counts == [] then Ul([])
    else if Counters.Total(counts) == 0 then ClassificationError
    else Ul(ClassificationItems(counts, Counters.Total(counts), fmt))
  }

  /** `classification_html_func`. */
  method ClassificationHtmlFunc(counts: Counters.Counter<Label>, fmt: real -> string) returns (html: string)
    ensures html == ClassificationHtml(counts, fmt)
  {
    html := "<ul>";
    ghost var total := Counters.Total(counts);
    ghost var items := if total > 0 then ClassificationItems(counts, total, fmt) else [];
    for i := 0 to |counts|
      invariant total == 0 ==> i == 0 && html == "<ul>"
      invariant total > 0 ==> html == "<ul>" + ListItems(items[..i])
    {
      // sum(classification_counts.values()), recomputed on every iteration
      var sum := Counters.Total(counts);
      if sum == 0 {
        // count / sum(...) raises ZeroDivisionError
        return ClassificationError;
      }
      var item := ClassificationItem(counts[i], sum, fmt);
      assert item == items[i];
      PrefixStep(items, i);
      OpenListAppend(html, items[..i], item);
      html := html + "<li>" + item + "</li>";
    }
    assert items[..|counts|] == items;
    html := html + "</ul>";
  }

  lemma PrefixStep<T>(xs: seq<T>, i: nat)
    requires i < |xs|
    ensures xs[..i + 1] == xs[..i] + [xs[i]]
  {
  }

  /** The classification HTML is the error paragraph exactly when the counts are non-empty but sum to zero. */
  lemma ClassificationErrorCase(counts: Counters.Counter<Label>, fmt: real -> string)
    ensures ClassificationHtml(counts, fmt) == ClassificationError <==> counts != [] && Counters.Total(counts) == 0
  {
    if counts == [] || Counters.Total(counts) > 0 {
      var html := ClassificationHtml(counts, fmt);
      assert html[1] == 'u';
      assert ClassificationError[1] == 'p';
    }
  }

  /** A counter built by counting (every value at least 1) never produces the error paragraph. */
  lemma {:induction false} ValidCountsNeverError(counts: Counters.Counter<Label>, fmt: real -> string)
    requires Counters.AllPositive(counts)
    ensures counts != [] ==> Counters.Total(counts) >= 1
    ensures ClassificationHtml(counts, fmt) != ClassificationError
  {
    if counts != [] {
      assert Counters.Total(counts) >= counts[0].1 >= 1;
    }
    ClassificationErrorCase(counts, fmt);
  }

  /** With empty counts the HTML is the empty list `<ul></ul>`. */
  lemma EmptyClassificationHtml(fmt: real -> string)
    ensures ClassificationHtml([], fmt) == "<ul></ul>"
  {
  }

  /** The classification list has one item per category, in the counter's order. */
  lemma ClassificationHtmlItems(counts: Counters.Counter<Label>, fmt: real -> string)
    requires Counters.Total(counts) > 0
    ensures ClassificationHtml(counts, fmt) == Ul(ClassificationItems(counts, Counters.Total(counts), fmt))
    ensures |ClassificationItems(counts, Counters.Total(counts), fmt)| == |counts|
  {
  }

  // ------------------------------------------------------------ topics

  /** `<strong>Topic {id}:</strong> {', '.join(words[:5])}`. */
  function TopicItem(t: Topic): string
  {
    "<strong>Topic " + NatToString(t.id) + ":</strong> " + Join(SliceTo(t.words, 5), ", ")
  }

  function TopicItems(topics: seq<Topic>): (bs: seq<string>)
    ensures |bs| == |topics|
    ensures forall i :: 0 <= i < |topics| ==> bs[i] == TopicItem(topics[i])
  {
    if topics == [] then [] else TopicItems(topics[..|topics| - 1]) + [TopicItem(topics[|topics| - 1])]
  }

  /** What `topics_html_func(topics)` returns: the first five topics by position. */
  function TopicsHtml(topics: seq<Topic>): string
  {
    Ul(TopicItems(SliceTo(topics, 5)))
  }

  /** `topics_html_func`. */
  method TopicsHtmlFunc(topics: seq<Topic>) returns (html: string)
    ensures html == TopicsHtml(topics)
  {
    var shown := SliceTo(topics, 5);
    html := "<ul>";
    for i := 0 to |shown|
      invariant html == "<ul>" + ListItems(TopicItems(shown[..i]))
    {
      var item := TopicItem(shown[i]);
      TopicItemsStep(shown, i);
      OpenListAppend(html, TopicItems(shown[..i]), item);
      html := html + "<li>" + item + "</li>";
    }
    assert shown[..|shown|] == shown;
    html := html + "</ul>";
  }

  lemma TopicItemsStep(topics: seq<Topic>, i: nat)
    requires i < |topics|
    ensures TopicItems(topics[..i + 1]) == TopicItems(topics[..i]) + [TopicItem(topics[i])]
  {
    assert topics[..i + 1][..i] == topics[..i];
  }

  /** Two topics shown alike: same id and same first five words. */
  predicate ShownAlike(t: Topic, u: Topic)
  {
    t.id == u.id && SliceTo(t.words, 5) == SliceTo(u.words, 5)
  }

  /**
   * The topics HTML depends only on the first five topics, and of each only
   * on its id and its first five words; weights play no part.
   */
  lemma TopicsHtmlShowsFirstFive(topics: seq<Topic>, others: seq<Topic>)
    requires |SliceTo(topics, 5)| == |SliceTo(others, 5)|
    requires forall i :: 0 <= i < |SliceTo(topics, 5)| ==> ShownAlike(topics[i], others[i])
    ensures TopicsHtml(topics) == TopicsHtml(others)
  {
    var a := SliceTo(topics, 5);
    var b := SliceTo(others, 5);
    assert forall i :: 0 <= i < |a| ==> a[i] == topics[i] && b[i] == others[i];
    assert TopicItems(a) == TopicItems(b);
  }

  /** The topics HTML has exactly `min(5, len(topics))` items. */
  lemma TopicsHtmlCount(topics: seq<Topic>)
    ensures TopicsHtml(topics) == Ul(TopicItems(SliceTo(topics, 5)))
    ensures |TopicItems(SliceTo(topics, 5))| == Min(5, |topics|)
  {
  }

  // ------------------------------------------------------ topics chart

  /** `f"Topic {topic['id']}: {', '.join(topic['words'][:3])}"`. */
  function ChartLabel(t: Topic): string
  {
    "Topic " + NatToString(t.id) + ": " + Join(SliceTo(t.words, 3), ", ")
  }

  /** The bar labels and weights of `create_topics_chart`, for the first five topics by position. */
  function TopicsChartSeries(topics: seq<Topic>): (series: (seq<string>, seq<real>))
    ensures |series.0| == |series.1| == Min(5, |topics|)
    ensures forall i :: 0 <= i < |series.0| ==> series.0[i] == ChartLabel(topics[i]) && series.1[i] == topics[i].weight
  {
    var shown := SliceTo(topics, 5);
    (seq(|shown|, i requires 0 <= i < |shown| => ChartLabel(shown[i])),
     seq(|shown|, i requires 0 <= i < |shown| => shown[i].weight))
  }

  /** A chart label lists the first words of the same topic's HTML item, in the same order. */
  lemma ChartWordsLeadHtmlWords(t: Topic)
    ensures Join(SliceTo(t.words, 3), ", ") <= Join(SliceTo(t.words, 5), ", ")
  {
    JoinPrefix(SliceTo(t.words, 3), SliceTo(t.words, 5), ", ");
  }

  /**
   * For the topic list the analysis builds, bar `i` is topic `i`: its label
   * names id `i` and its weight is the probability sum of that topic's words.
   */
  lemma ChartOfBuiltTopics(topics: seq<Topic>, showTopic: nat -> ShownTopic)
    requires forall i :: 0 <= i < |topics| ==> topics[i].id == i && topics[i].weight == ProbabilitySum(showTopic(i))
    ensures var series := TopicsChartSeries(topics);
      forall i :: 0 <= i < |series.0| ==>
        && series.0[i][..6 + |NatToString(i)|] == "Topic " + NatToString(i)
        && series.1[i] == ProbabilitySum(showTopic(i))
  {
    var series := TopicsChartSeries(topics);
    forall i | 0 <= i < |series.0|
      ensures series.0[i][..6 + |NatToString(i)|] == "Topic " + NatToString(i)
    {
      assert series.0[i] == "Topic " + NatToString(i) + (": " + Join(SliceTo(topics[i].words, 3), ", "));
    }
  }

  // ------------------------------------------------------- key phrases

  const NoKeyPhrases := "<p>No key phrases extracted.</p>"

  /** What `key_phrases_html_func(phrases)` returns. */
  function KeyPhrasesHtml(phrases: seq<string>): string
  {
    if phrases == [] then NoKeyPhrases else Ul(phrases)
  }

  /** `key_phrases_html_func`. */
  method KeyPhrasesHtmlFunc(phrases: seq<string>) returns (html: string)
    ensures html == KeyPhrasesHtml(phrases)
  {
    if phrases == [] {
      return NoKeyPhrases;
    }
    html := "<ul>";
    for i := 0 to |phrases|
      invariant html == "<ul>" + ListItems(phrases[..i])
    {
      PrefixStep(phrases, i);
      OpenListAppend(html, phrases[..i], phrases[i]);
      html := html + "<li>" + phrases[i] + "</li>";
    }
    assert phrases[..|phrases|] == phrases;
    html := html + "</ul>";
  }

  /** The placeholder appears exactly for an empty list. */
  lemma KeyPhrasesPlaceholderCase(phrases: seq<string>)
    ensures KeyPhrasesHtml(phrases) == NoKeyPhrases <==> phrases == []
  {
    if phrases != [] {
      UlIsNotParagraph(phrases);
    }
  }

  /** A non-empty list of phrases without `<` reads back as the phrases, in order. */
  lemma KeyPhrasesHtmlReadsBack(phrases: seq<string>)
    requires forall i :: 0 <= i < |phrases| ==> NoTag(phrases[i])
    ensures phrases != [] ==> ParseUl(KeyPhrasesHtml(phrases)) == Some(phrases)
  {
    if phrases != [] {
      UlReadsBack(phrases);
    }
  }

  /** An HTML list is never the placeholder paragraph. */
  lemma UlIsNotParagraph(bodies: seq<string>)
    ensures Ul(bodies) != NoKeyPhrases
  {
    assert Ul(bodies)[1] == 'u';
    assert NoKeyPhrases[1] == 'p';
  }
}
