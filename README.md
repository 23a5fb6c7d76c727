# YouTube Comment Insights Analyzer — a verified model of its core rules

The analyzer fetches the comments of a YouTube video, normalises them,
classifies their sentiment, picks a number of LDA topics, counts emotions,
asks OpenAI for key phrases and renders the results as a plain-text summary,
three HTML fragments and chart series. Every library it calls (NLTK, TextBlob,
gensim, text2emotion, OpenAI, the YouTube Data API, the file system and the
clock) is an oracle parameter here. What is modelled and proved are the small
deterministic rules that sit between those calls.

- `Wrappers.dfy` — `Option`.
- `PyStr.dfy` — the Python `str` built-ins the code relies on: `in`,
  `find`, `split(sep)`, `split()`, `join`, `strip(chars)`, `strip()`, the
  slice `s[:m]` for any integer `m`, `f"{n}"` for a natural number, and the
  truth value of an optional string such as an `os.getenv` result.
- `Counters.dfy` — `collections.Counter`: a sequence of (key, count) pairs
  in insertion order, with `c[k] += 1` and `Counter(xs)`.
- `Normalizer.dfy` — `preprocess_text`.
- `Sentiment.dfy` — `classify_comment` and the label counter.
- `Topics.dfy` — the selection rule of `determine_optimal_topics` (a method
  with its `for` loop) and the `top_topics` loop (a method with its `while`
  loop).
- `Emotions.dfy` — the nested emotion-count loops (a method).
- `Render.dfy` — `generate_summary` and the three `*_html_func` serialisers
  (methods whose loops build the string with `+=`, each proved equal to a
  specification function), and the label and weight series of
  `create_topics_chart`.
- `Analysis.dfy` — how `analyze_comments_with_model` wires normalisation,
  classification, counting and the summary together.
- `OpenAiApi.dfy` — `generate_key_phrases` (key check, the first 100
  comments, the prompt, and the reply parser as a method with its loop) and
  the key check and prompt of `generate_ai_image`.
- `YoutubeApi.dfy` — `get_video_id`, `get_cache_file_path`, the freshness
  test and the cache lookup of `get_cached_comments`, and
  `get_video_comments`: the cache hit, and the paging loop as a method over a
  finite sequence of API responses, where the k-th request gets the k-th
  response and a request past the last one fails.

Behaviour of the code worth noting:

- The `top_topics` loop builds the topic list in id order, and nothing sorts
  it by weight.
- The topic search tries every count of `range(start, limit + 1, step)`; it
  has no deadline.
- `generate_summary` called with an empty counter and a total of 0 returns
  the header line alone.
- `url.split('v=')[1]` takes the text after the first `v=` anywhere in the
  URL, even before `youtube.com/watch?v=`. It also stops at a second `v=`.
- `os.path.join` ignores the cache directory when the video id starts with
  `/`.

## Model

| member | source | states |
|---|---|---|
| PyStr.Find | youtube_api.py:23-25 | `s.find(sub)`: no position exactly when `sub` is not in `s`; otherwise an occurrence with none before it |
| PyStr.Split | youtube_api.py:24-26 | `s.split(sep)` has at least one piece, and two or more exactly when `sep` occurs in `s` |
| PyStr.JoinOfSplit | youtube_api.py:24-26 | joining the pieces of a split with the separator gives the string back |
| PyStr.SplitPartsAvoidSep | youtube_api.py:24-26 | no piece of a split contains the separator |
| PyStr.SplitHead | youtube_api.py:24 | `s.split(sep)[0]` is a prefix of `s` without `sep`, followed by `sep` unless it is all of `s` |
| PyStr.SplitLast | youtube_api.py:26 | `s.split(sep)[-1]` is a suffix of `s`, preceded by `sep` unless it is all of `s` |
| PyStr.SplitTerminated | comment_analysis.py:57-60 | splitting newline-terminated lines on `\n` gives the lines and then an empty last piece |
| PyStr.SplitWsOfJoin | comment_analysis.py:195 | `str.split()` undoes `' '.join(words)` for non-empty words without whitespace |
| PyStr.JoinPrefix | comment_analysis.py:130 | joining a prefix of the parts gives a prefix of the joined text |
| PyStr.Strip | openai_api.py:76 | `s.strip(chars)` neither starts nor ends with a stripped character |
| PyStr.StripSlice | openai_api.py:76 | `strip` removes only a prefix and a suffix made of stripped characters; the middle is kept unchanged |
| PyStr.StripIdempotent | openai_api.py:76 | stripping twice gives the same as stripping once |
| PyStr.SliceTo | openai_api.py:51 | `s[:m]` is a prefix of `s` of length `min(m, len(s))`, or `max(0, len(s) + m)` for negative `m` |
| PyStr.NatToString | comment_analysis.py:57 | `f"{n}"` is a non-empty run of decimal digits without a leading zero |
| PyStr.ParseNatOfNatToString | comment_analysis.py:57 | reading the decimal rendering back gives the number |
| Counters.IndexOf | comment_analysis.py:228 | the position of a key is the first one holding it; no position when it is absent |
| Counters.IncrementSpec | comment_analysis.py:241 | `c[k] += 1` keeps keys distinct and counts positive, adds one to `k` only, adds one to the total, and appends a new key after the existing ones |
| Counters.CounterOfSpec | comment_analysis.py:228 | `Counter(xs)` counts each element's occurrences, has keys in first-seen order, and its values sum to `len(xs)` |
| Counters.PresentIffPositive | comment_analysis.py:228 | in a counter built by counting, a key is present exactly when its count is positive |
| Normalizer.ReplaceNonWord | comment_analysis.py:30 | `re.sub(r'[^\w\s]', ' ', t)` keeps the length, keeps word and space characters, and turns every other character into a space |
| Normalizer.KeptTokens | comment_analysis.py:32-33 | the kept tokens are no more than the tokens, and each is alphanumeric and not a stopword once the preserved words are taken out |
| Normalizer.KeptTokensAppend | comment_analysis.py:33 | the filter distributes over concatenation, so it keeps token order |
| Normalizer.KeptTokensMembers | comment_analysis.py:33 | a token is kept exactly when it is among the tokens and passes the test made before lemmatization |
| Normalizer.LemmatizeAll | comment_analysis.py:33 | every kept token is lemmatized once, in order; the list fails exactly when one call raises |
| Normalizer.PreservedWordsSurvive | comment_analysis.py:32-33 | an alphanumeric `not`, `no`, `very`, `too`, `only`, `but` or `and` is kept every time it occurs, whatever the stopword list |
| Normalizer.PreprocessCases | comment_analysis.py:27-38 | the result is the kept tokens' lemmas joined by single spaces, with no more lemmas than tokens; `''` when the tokenizer, the stopword list or a lemmatization raises |
| Normalizer.PreservedWordsReachOutput | comment_analysis.py:32-34 | when nothing raises, the lemma of each preserved alphanumeric token appears in the output |
| Normalizer.ResplitProcessed | comment_analysis.py:195 | splitting a processed comment on whitespace gives back its lemma list when the lemmas are single words |
| Sentiment.Classify | comment_analysis.py:40-53 | Positive exactly above the double 0.1, Negative exactly below -0.1, Neutral at the bounds, between them and when scoring raises |
| Sentiment.ClassifyAll | comment_analysis.py:227 | one label per text, in order, each the label of that text |
| Sentiment.ClassificationCounts | comment_analysis.py:227-228 | the label counter counts each label's occurrences, lists labels in first-seen order, sums to the number of texts, and is empty exactly when there are no texts |
| Analysis.ProcessedComments | comment_analysis.py:192 | one processed text per comment, in order, each `preprocess_text` of that comment |
| Analysis.SentimentCountsSpec | comment_analysis.py:192-228 | the counts built from the processed texts count each label, sum to `len(comments)`, and are empty exactly for no comments |
| Analysis.FailedNormalisationClassifiesEmptyText | comment_analysis.py:36-38 | a comment whose normalisation raises is classified as the empty text is |
| Analysis.AnalysisSummaryNotEmpty | comment_analysis.py:231 | the analysis summary is never the error text `''` |
| Analysis.AnalysisPercentagesSumTo100 | comment_analysis.py:59 | for at least one comment, the summary's percentages add up to 100 |
| Render.PercentagesSumTo100 | comment_analysis.py:59 | when the total is the sum of the counts, the percentages add up to exactly 100 |
| Render.SummaryLines | comment_analysis.py:58-60 | one summary line per category, in the counter's order |
| Render.GenerateSummary | comment_analysis.py:55-64 | the loop builds the header and then one newline-terminated line per category; `''` on a zero total with categories |
| Render.SummaryErrorCase | comment_analysis.py:59-64 | the summary is `''` exactly when there are categories and the total is zero |
| Render.SummaryReadsBack | comment_analysis.py:57-61 | split into lines, a summary gives the header, then each category's line in order, then an empty last piece |
| Render.SummaryOfNoCategories | comment_analysis.py:57 | with no categories the summary is the header line alone |
| Render.UlReadsBack | comment_analysis.py:297-300 | an HTML list of bodies without `<` reads back as those bodies |
| Render.ClassificationHtmlFunc | comment_analysis.py:269-279 | the loop builds `<ul>`, one item per category against the sum of all counts, then `</ul>`; the error paragraph on a zero sum with categories |
| Render.ClassificationErrorCase | comment_analysis.py:273-279 | the error paragraph appears exactly when there are categories whose counts sum to zero |
| Render.ValidCountsNeverError | comment_analysis.py:269-279 | counts built by counting never give the error paragraph |
| Render.EmptyClassificationHtml | comment_analysis.py:271-275 | with empty counts the HTML is `<ul></ul>` |
| Render.ClassificationHtmlItems | comment_analysis.py:272-274 | with a positive sum the list has one item per category, in the counter's order |
| Render.TopicsHtmlFunc | comment_analysis.py:281-291 | the loop builds one item per topic among the first five by position |
| Render.TopicsHtmlShowsFirstFive | comment_analysis.py:284-286 | the topics HTML depends only on the ids and first five words of the first five topics; weights play no part |
| Render.TopicsHtmlCount | comment_analysis.py:284 | the topics HTML has exactly `min(5, len(topics))` items |
| Render.TopicsChartSeries | comment_analysis.py:129-131 | at most five bars; bar `i` has topic `i`'s label and weight |
| Render.ChartWordsLeadHtmlWords | comment_analysis.py:130 | a chart label's words lead that topic's HTML words, in the same order |
| Render.ChartOfBuiltTopics | comment_analysis.py:129-131 | for the built topic list, bar `i` is labelled `Topic i` and weighs the probability sum of topic `i` |
| Render.KeyPhrasesHtmlFunc | comment_analysis.py:293-304 | the placeholder for no phrases, otherwise `<ul>`, one item per phrase in order, then `</ul>` |
| Render.KeyPhrasesPlaceholderCase | comment_analysis.py:295-296 | the placeholder appears exactly for an empty list |
| Render.KeyPhrasesHtmlReadsBack | comment_analysis.py:297-301 | for phrases without `<`, a non-empty list reads back as the phrases, in order |
| Topics.RangeAt | comment_analysis.py:70 | item `i` of `range(start, stop, step)` is `start + i * step` |
| Topics.RangeBounds | comment_analysis.py:70 | with a positive step every count lies in `[start, stop)` |
| Topics.Scores | comment_analysis.py:70-90 | one coherence per count, in range order; failure exactly when one count cannot be trained or scored |
| Topics.FirstArgMax | comment_analysis.py:92 | `scores.index(max(scores))`: the first position of a largest score |
| Topics.DetermineOptimalTopics | comment_analysis.py:66-98 | the loop scores each count in order; the result is `start + index * step`, or 5 on a zero step, an empty range or a failing model |
| Topics.OptimalTopicsBest | comment_analysis.py:70-95 | with a positive step and every model scored, the result is a count of the range, with the highest coherence and the smallest such count on a tie |
| Topics.OptimalTopicsFallback | comment_analysis.py:92-98 | an empty range or a model that cannot be trained or scored gives 5 |
| Topics.DefaultSearchBounded | comment_analysis.py:66 | with the defaults the count is between 2 and 10 |
| Topics.WordsOf | comment_analysis.py:218-219 | the words of a shown topic, in order, at most 10 of them |
| Topics.BuildTopics | comment_analysis.py:216-224 | the loop gives exactly `n` topics with ids `0..n-1` in order, each with at most 10 words and the probability sum as its weight |
| Topics.WeightBounds | comment_analysis.py:223 | with probabilities between 0 and `top`, a weight lies between 0 and `len(words) * top` |
| Emotions.CountEmotions | comment_analysis.py:236-241 | the nested loops compute the emotion counter of all comments |
| Emotions.AddPositiveSpec | comment_analysis.py:239-241 | one comment adds one to each emotion it scores above zero, and changes nothing else |
| Emotions.EmotionCountsSpec | comment_analysis.py:236-241 | each emotion's count is the number of comments that score it above zero |
| Emotions.EmotionCountsBounds | comment_analysis.py:236-241 | no count exceeds the number of comments; an emotion is present exactly when some comment scores it above zero |
| OpenAiApi.PromptParts | openai_api.py:53-57 | the prompt is the fixed head, then the joined comments, then the fixed tail |
| OpenAiApi.PromptUsesFirst100 | openai_api.py:51 | comments agreeing on their first 100 give the same prompt |
| OpenAiApi.FewCommentsAllUsed | openai_api.py:51 | with at most 100 comments, all are joined |
| OpenAiApi.PromptCommentsRecoverable | openai_api.py:51-57 | for single-word comments, splitting the prompt's middle gives back the first 100, in order |
| OpenAiApi.StripAll | openai_api.py:75-76 | each line stripped of the bullet characters |
| OpenAiApi.ParseKeyPhrases | openai_api.py:72-78 | the loop keeps each non-empty stripped line of the stripped reply |
| OpenAiApi.PhrasesMatchLines | openai_api.py:75-78 | phrases match, one to one and in order, the lines that are not empty once stripped; there are no more phrases than lines |
| OpenAiApi.PhrasesWellFormed | openai_api.py:76-78 | every phrase from lines without breaks is non-empty, has no stripped character at either end, and is its own strip |
| OpenAiApi.ReplyPhrasesWellFormed | openai_api.py:72-78 | every phrase of a reply is non-empty, neither starts nor ends with `-`, `•`, space, tab, a digit or `.`, and holds no `\n` (a `\r` from a CRLF reply is kept); there are no more phrases than lines |
| OpenAiApi.PhrasesOfAppend | openai_api.py:75-78 | reading two runs of lines in turn gives the phrases of each, in order |
| OpenAiApi.GenerateKeyPhrases | openai_api.py:41-87 | no request and no phrases without a key; otherwise the one request for the prompt, then the reply's phrases, or none if the call fails |
| OpenAiApi.KeyPhrasesFailures | openai_api.py:46-87 | a missing key or a failed call gives `[]`; otherwise the phrases of the reply |
| OpenAiApi.AiImage | openai_api.py:12-39 | no image without a key; with one, the service's answer to the image request |
| OpenAiApi.ImagePromptCarriesSummary | openai_api.py:21 | the image prompt is the fixed head followed by the whole summary |
| YoutubeApi.GetVideoId | youtube_api.py:18-31 | there is no id exactly when the URL holds neither `youtube.com/watch?v=` nor `youtu.be/` |
| YoutubeApi.WatchIdIsCut | youtube_api.py:24 | the watch id is the text after the first `v=`, cut at the next `v=` and then at `&` |
| YoutubeApi.WatchIdShape | youtube_api.py:23-24 | the watch id follows the first `v=`, holds no `&` and no `v=`, and ends where the URL ends, at `&` or at `v=` |
| YoutubeApi.CanonicalWatchUrl | youtube_api.py:23-24 | in `https://www.youtube.com/watch?v=` plus a tail, the first `v=` is the marker's |
| YoutubeApi.WatchUrlId | youtube_api.py:23-24 | a canonical watch URL gives back its id when the id has no `&` or `=` and any query starts with `&` |
| YoutubeApi.ShortIdShape | youtube_api.py:25-26 | a short URL's id is its suffix after the last `/`, or all of it; it holds no `/` and may be empty |
| YoutubeApi.ShortUrlNotWatch | youtube_api.py:23-25 | `https://youtu.be/` followed by an id without `/` is not a watch URL but is a short URL |
| YoutubeApi.ShortUrlId | youtube_api.py:25-26 | `https://youtu.be/` followed by an id without `/` gives that id back |
| YoutubeApi.CachePathShape | youtube_api.py:33-37 | the cache file is `.cache/youtube_comments/<id>.json`, or `<id>.json` for an id starting with `/` |
| YoutubeApi.CachePathInjective | youtube_api.py:33-37 | different video ids never share a cache file |
| YoutubeApi.PagingStep | youtube_api.py:92-108 | each pass sends one request for `min(100, max_results - len(comments))`; it fails on an error, stops on a page without a token, and goes on otherwise |
| YoutubeApi.PagingDone | youtube_api.py:92 | once `max_results` comments are collected the loop sends nothing more |
| YoutubeApi.PagingRequests | youtube_api.py:92-98 | request `i` asks for this video, for `min(100, max_results - collected)` comments, with the previous page's token |
| YoutubeApi.PagingOutcome | youtube_api.py:92-108 | no request exactly when enough comments are collected; every page but the last continues; success collects the requested pages' items in order, ending at a last page or at `max_results`; failure ends at a failing or missing response |
| YoutubeApi.FetchComments | youtube_api.py:89-108 | the loop's requests and collected comments are those of the paging recursion |
| YoutubeApi.RejectedWithoutKeyOrId | youtube_api.py:72-79 | without a key or a video id: no comments, no request, no cache write |
| YoutubeApi.CacheHit | youtube_api.py:82-84 | a fresh cache file with comments answers alone with its first `max_results` comments |
| YoutubeApi.UnusableCacheIgnored | youtube_api.py:45-53 | an unreadable file, one written an hour ago or earlier, or one without comments acts as no file |
| YoutubeApi.MissRequests | youtube_api.py:86-108 | on a cache miss each request asks this video for between 1 and 100 comments, the first without a token and each next one with the previous page's token |
| YoutubeApi.MissOutcome | youtube_api.py:86-119 | on a cache miss no request exactly when `max_results <= 0`; on success the cached comments are the requested pages' items in page order and the result is their first `max_results`, a prefix of all items; on a failure nothing is returned or cached |
| YoutubeApi.ItemsOfPrefix | youtube_api.py:101-103 | the items of the first pages lead the items of all pages |
| YoutubeApi.GetVideoComments | youtube_api.py:67-119 | the result, the requests sent and the comments cached are those of the function model of `get_video_comments` |

## Left out

- Foreign libraries are oracle parameters and are not modelled: NLTK's `word_tokenize`, its stopword list and `WordNetLemmatizer`, `str.lower`, Unicode `isalnum`, TextBlob polarity, gensim LDA training and `c_v` coherence, `show_topic`, and `text2emotion`.
- The dictionary and corpus are not modelled. Neither are the LDA training parameters or the `model_list` of `determine_optimal_topics`. The coherence of each topic count is an oracle.
- Render.SummaryText and Render.ClassificationHtml: how `{:.1f}` prints a percentage is the parameter `fmt`. Percentages are exact reals, not doubles. Render.SummaryReadsBack assumes `fmt` never prints a line break.
- Floating point is not modelled, except the threshold `0.1`, which is its exact double value. Polarities, coherences, probabilities, weights and times are reals.
- Plotly figure construction, JSON encoding and colours are not modelled. Of `create_topics_chart` only the label and weight series are. `create_sentiment_chart` and `create_emotion_chart` are not part of this model.
- No network, file or clock I/O is modelled:
  - The OpenAI and YouTube clients are functions from request to reply, `None` when they raise.
  - The cache directory is a map from path to parsed contents.
  - `time.time()` is the parameter `now`.
  - The cache write is the `stored` result. The write's timestamp, and its errors, which the code swallows, are not modelled. `os.makedirs` is not modelled.
- YoutubeApi.FetchComments: a response's items are already comment texts. The `KeyError` of an item without `snippet` fields is not modelled, and neither is any exception besides a failing request. A response depends on its position, not on the page token sent.
- The API responses are a finite sequence, and a request beyond its end fails. This bound is what makes YoutubeApi.FetchComments terminate. The loop of `get_video_comments` has no bound of its own: a service that kept answering with empty pages and a next token would keep it looping forever.
- A failing `build('youtube', 'v3', ...)` client construction is not modelled.
- OpenAiApi.KeyPhraseRequest leaves out the constant `n=1` and `stop=None`. OpenAiApi.AiImage takes the image URL as the oracle's answer, not `response['data'][0]['url']`.
- Topics.BuildTopics and Emotions.CountEmotions take `show_topic` and `text2emotion` as total; in the code an exception from either, or from the final LDA training, makes the whole analysis return `None`. That outer `try` of `analyze_comments_with_model` is not modelled.
- The fallback paragraphs of `topics_html_func` and `key_phrases_html_func` are left out. The only fault those functions can hit is a malformed record, and topic and phrase records here are always well formed.
- `str(text)` in `preprocess_text` is not modelled: comments are strings already.
- Logging and tracebacks are not modelled.
