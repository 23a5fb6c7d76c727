/**
 * The two OpenAI calls: `generate_key_phrases` (key check, the prompt over
 * the first 100 comments, and the line-by-line reading of the reply) and
 * the key check and prompt of `generate_ai_image`. The API key is the value
 * of `OPENAI_API_KEY`, and the services are oracles that may fail (`None`).
 */
module OpenAiApi {
  import opened Wrappers
  import opened PyStr

  // ------------------------------------------------------------ prompt

  const PromptHead := "Extract the most significant key phrases from the following comments:\n\n"
  const PromptTail := "\n\nProvide a list of the top 20 key phrases."
  const SystemMessage := "You are an assistant that extracts key phrases from text."

  /** `" ".join(comments[:100])`. */
  function JoinedComments(comments: seq<string>): string
  {
    Join(SliceTo(comments, 100), " ")
  }

  function KeyPhrasePrompt(comments: seq<string>): string
  {
    PromptHead + JoinedComments(comments) + PromptTail
  }

  /** The chat completion request: model, the two messages, `max_tokens` and temperature. */
  datatype ChatRequest = ChatRequest(model: string, system: string, user: string, maxTokens: nat, temperature: real)

  function KeyPhraseRequest(comments: seq<string>): ChatRequest
  {
    ChatRequest("gpt-3.5-turbo", SystemMessage, KeyPhrasePrompt(comments), 500, 0.5)
  }

  /** The prompt holds the fixed head, then the joined comments, then the fixed tail. */
  lemma PromptParts(comments: seq<string>)
    ensures var p := KeyPhrasePrompt(comments);
      && |p| == |PromptHead| + |JoinedComments(comments)| + |PromptTail|
      && p[..|PromptHead|] == PromptHead
      && p[|PromptHead|..|p| - |PromptTail|] == JoinedComments(comments)
      && p[|p| - |PromptTail|..] == PromptTail
  {
  }

  /** Only the first 100 comments reach the prompt. */
  lemma PromptUsesFirst100(comments: seq<string>, others: seq<string>)
    requires SliceTo(comments, 100) == SliceTo(others, 100)
    ensures KeyPhrasePrompt(comments) == KeyPhrasePrompt(others)
  {
  }

  /** With at most 100 comments, every one of them is used. */
  lemma FewCommentsAllUsed(comments: seq<string>)
    requires |comments| <= 100
    ensures JoinedComments(comments) == Join(comments, " ")
  {
    assert comments[..|comments|] == comments;
    assert SliceTo(comments, 100) == comments;
  }

  /**
   * When the comments are single non-empty words, splitting the middle of
   * the prompt on whitespace gives back the first 100 of them, in order.
   */
  lemma PromptCommentsRecoverable(comments: seq<string>)
    requires forall k :: 0 <= k < |comments| ==> comments[k] != [] && NoSpace(comments[k])
    ensures var p := KeyPhrasePrompt(comments);
      SplitWs(p[|PromptHead|..|p| - |PromptTail|]) == SliceTo(comments, 100)
  {
    PromptParts(comments);
    var used := SliceTo(comments, 100);
    assert forall k :: 0 <= k < |used| ==> used[k] == comments[k];
    SplitWsOfJoin(used);
  }

  // ---------------------------------------------------------- the reply

  /** `"-• \t1234567890."`, the characters stripped from both ends of each line. */
  const BulletChars: set<char> := {'-', '\U{2022}', ' ', '\t', '1', '2', '3', '4', '5', '6', '7', '8', '9', '0', '.'}

  /** Every line stripped of the characters `cs` at both ends. */
  function StripAll(lines: seq<string>, cs: set<char>): (r: seq<string>)
    ensures |r| == |lines| && forall i :: 0 <= i < |lines| ==> r[i] == Strip(lines[i], cs)
  {
    seq(|lines|, i requires 0 <= i < |lines| => Strip(lines[i], cs))
  }

  /** The strings of `xs` that are not empty, in order. */
  function NonEmpty(xs: seq<string>): seq<string>
  {
    if xs == [] then []
    else NonEmpty(xs[..|xs| - 1]) + (if xs[|xs| - 1] != "" then [xs[|xs| - 1]] else [])
  }

  /** The stripped lines that are not empty, in order. */
  function PhrasesOf(lines: seq<string>, cs: set<char>): seq<string>
  {
    NonEmpty(StripAll(lines, cs))
  }

  /** The phrases read from a reply: split the stripped text into lines and keep each non-empty stripped line. */
  function KeyPhrasesOfReply(content: string): seq<string>
  {
    PhrasesOf(Split(StripSpace(content), "\n"), BulletChars)
  }

  /** The parsing loop of `generate_key_phrases`. */
  method ParseKeyPhrases(content: string) returns (phrases: seq<string>)
    ensures phrases == KeyPhrasesOfReply(content)
  {
    var lines := Split(StripSpace(content), "\n");
    phrases := [];
    for i := 0 to |lines|
      invariant phrases == NonEmpty(StripAll(lines[..i], BulletChars))
    {
      var line := Strip(lines[i], BulletChars);
      StripAllStep(lines, BulletChars, i);
      if line != "" {
        phrases := phrases + [line];
      }
    }
    assert lines[..|lines|] == lines;
  }

  lemma StripAllStep(lines: seq<string>, cs: set<char>, i: nat)
    requires i < |lines|
    ensures StripAll(lines[..i + 1], cs) == StripAll(lines[..i], cs) + [Strip(lines[i], cs)]
    ensures StripAll(lines[..i + 1], cs)[..i] == StripAll(lines[..i], cs)
  {
  }

  /** The positions of the strings of `xs` that are not empty. */
  function KeptIndices(xs: seq<string>): seq<nat>
  {
    if xs == [] then []
    else KeptIndices(xs[..|xs| - 1]) + (if xs[|xs| - 1] != "" then [|xs| - 1] else [])
  }

  /**
   * The kept strings and the non-empty strings of `xs` correspond one to one
   * and in order: kept string `i` is `xs[KeptIndices(xs)[i]]`, those
   * positions increase, and a position is kept exactly when its string is
   * not empty.
   */
  lemma NonEmptyMatches(xs: seq<string>)
    ensures |KeptIndices(xs)| == |NonEmpty(xs)| <= |xs|
    ensures forall i :: 0 <= i < |KeptIndices(xs)| ==> KeptIndices(xs)[i] < |xs| && NonEmpty(xs)[i] == xs[KeptIndices(xs)[i]]
    ensures forall i, j :: 0 <= i < j < |KeptIndices(xs)| ==> KeptIndices(xs)[i] < KeptIndices(xs)[j]
    ensures forall k :: 0 <= k < |xs| ==> (k in KeptIndices(xs) <==> xs[k] != "")
  {
    KeptAligned(xs);
    KeptIncrease(xs);
    KeptComplete(xs);
  }

  lemma {:induction false} KeptAligned(xs: seq<string>)
    ensures |KeptIndices(xs)| == |NonEmpty(xs)| <= |xs|
    ensures forall i :: 0 <= i < |KeptIndices(xs)| ==> KeptIndices(xs)[i] < |xs| && NonEmpty(xs)[i] == xs[KeptIndices(xs)[i]]
  {
    if xs != [] {
      var n := |xs|;
      var init := xs[..n - 1];
      KeptAligned(init);
      assert forall i :: 0 <= i < n - 1 ==> init[i] == xs[i];
    }
  }

  lemma {:induction false} KeptIncrease(xs: seq<string>)
    ensures forall i :: 0 <= i < |KeptIndices(xs)| ==> KeptIndices(xs)[i] < |xs|
    ensures forall i, j :: 0 <= i < j < |KeptIndices(xs)| ==> KeptIndices(xs)[i] < KeptIndices(xs)[j]
  {
    if xs != [] {
      var n := |xs|;
      KeptIncrease(xs[..n - 1]);
      var idx0 := KeptIndices(xs[..n - 1]);
      if xs[n - 1] != "" {
        var idx := idx0 + [n - 1];
        assert KeptIndices(xs) == idx;
        forall i, j | 0 <= i < j < |idx|
          ensures idx[i] < idx[j]
        {
          assert idx[i] == idx0[i];
          if j < |idx0| {
            assert idx[j] == idx0[j];
          }
        }
      } else {
        assert KeptIndices(xs) == idx0;
      }
    }
  }

  lemma {:induction false} KeptComplete(xs: seq<string>)
    ensures forall k :: 0 <= k < |xs| ==> (k in KeptIndices(xs) <==> xs[k] != "")
  {
    if xs != [] {
      var n := |xs|;
      var init := xs[..n - 1];
      KeptComplete(init);
      KeptIncrease(init);
      assert forall k :: 0 <= k < n - 1 ==> init[k] == xs[k];
      assert n - 1 !in KeptIndices(init);
    }
  }

  /**
   * Phrases and the reply lines that are not empty once stripped correspond
   * one to one and in order: phrase `i` is the stripped line
   * `KeptIndices(StripAll(lines, cs))[i]`, the line positions increase, and
   * a line gives a phrase exactly when its stripped text is not empty.
   */
  lemma PhrasesMatchLines(lines: seq<string>, cs: set<char>)
    ensures var idx := KeptIndices(StripAll(lines, cs)); var ps := PhrasesOf(lines, cs);
      && |idx| == |ps| <= |lines|
      && (forall i :: 0 <= i < |idx| ==> idx[i] < |lines| && ps[i] == Strip(lines[idx[i]], cs))
      && (forall i, j :: 0 <= i < j < |idx| ==> idx[i] < idx[j])
      && (forall k :: 0 <= k < |lines| ==> (k in idx <==> Strip(lines[k], cs) != ""))
  {
    NonEmptyMatches(StripAll(lines, cs));
  }

  /** A phrase as the parser keeps it: not empty, no character of `cs` at either end, no `\n`. */
  predicate WellFormedPhrase(p: string, cs: set<char>)
  {
    && p != ""
    && p[0] !in cs
    && p[|p| - 1] !in cs
    && '\n' !in p
    && Strip(p, cs) == p
  }

  /** A line without `\n` that is not empty once stripped gives a well-formed phrase. */
  lemma StrippedLine(line: string, cs: set<char>)
    requires '\n' !in line && Strip(line, cs) != ""
    ensures WellFormedPhrase(Strip(line, cs), cs)
  {
    StripIdempotent(line, cs);
    StripInside(line, cs);
  }

  /** Every phrase read from lines without `\n` is well formed. */
  lemma PhrasesWellFormed(lines: seq<string>, cs: set<char>)
    requires forall k :: 0 <= k < |lines| ==> '\n' !in lines[k]
    ensures forall i :: 0 <= i < |PhrasesOf(lines, cs)| ==> WellFormedPhrase(PhrasesOf(lines, cs)[i], cs)
  {
    var stripped := StripAll(lines, cs);
    var ps := PhrasesOf(lines, cs);
    var idx := KeptIndices(stripped);
    KeptAligned(stripped);
    KeptComplete(stripped);
    forall i | 0 <= i < |ps|
      ensures WellFormedPhrase(ps[i], cs)
    {
      var k := idx[i];
      assert idx[i] in idx;
      StrippedLine(lines[k], cs);
    }
  }

  /** A stripped string is a piece of the original, so holds no character the original lacks. */
  lemma StripInside(s: string, cs: set<char>)
    ensures forall c :: c in Strip(s, cs) ==> c in s
  {
    var r := Strip(s, cs);
    var i := |s| - |LStrip(s, cs)|;
    StripSlice(s, cs);
    forall c | c in r
      ensures c in s
    {
      var k :| 0 <= k < |r| && r[k] == c;
      assert s[i + k] == c;
    }
  }

  /**
   * Every phrase of a reply is non-empty, starts and ends with none of
   * `-`, `•`, space, tab, a digit or `.`, and holds no `\n` (a `\r` of a
   * CRLF reply stays at the end of a phrase); there are
   * no more phrases than reply lines.
   */
  lemma ReplyPhrasesWellFormed(content: string)
    ensures forall i :: 0 <= i < |KeyPhrasesOfReply(content)| ==> WellFormedPhrase(KeyPhrasesOfReply(content)[i], BulletChars)
    ensures |KeyPhrasesOfReply(content)| <= |Split(StripSpace(content), "\n")|
  {
    var lines := Split(StripSpace(content), "\n");
    SplitPartsAvoidSep(StripSpace(content), "\n");
    forall k | 0 <= k < |lines|
      ensures '\n' !in lines[k]
    {
      NoCharNoOccurrence(lines[k], '\n');
    }
    PhrasesWellFormed(lines, BulletChars);
    KeptAligned(StripAll(lines, BulletChars));
  }

  /** A string in which the one-character string `[c]` does not occur does not contain `c`. */
  lemma NoCharNoOccurrence(s: string, c: char)
    requires !Contains(s, [c])
    ensures c !in s
  {
    if c in s {
      var j :| 0 <= j < |s| && s[j] == c;
      assert s[j..j + 1] == [c];
      assert OccursAt(s, [c], j);
    }
  }

  /** Reading two runs of lines one after the other gives the phrases of each, in order. */
  lemma PhrasesOfAppend(a: seq<string>, b: seq<string>, cs: set<char>)
    ensures PhrasesOf(a + b, cs) == PhrasesOf(a, cs) + PhrasesOf(b, cs)
  {
    assert StripAll(a + b, cs) == StripAll(a, cs) + StripAll(b, cs);
    NonEmptyAppend(StripAll(a, cs), StripAll(b, cs));
  }

  lemma {:induction false} NonEmptyAppend(a: seq<string>, b: seq<string>)
    ensures NonEmpty(a + b) == NonEmpty(a) + NonEmpty(b)
    decreases |b|
  {
    if b == [] {
      assert a + b == a;
    } else {
      NonEmptyAppend(a, b[..|b| - 1]);
      assert (a + b)[..|a + b| - 1] == a + b[..|b| - 1];
    }
  }

  // ------------------------------------------------- generate_key_phrases

  /** What `generate_key_phrases(comments)` returns, with the service reply (or its failure) given by `chat`. */
  function KeyPhrases(apiKey: Option<string>, comments: seq<string>, chat: ChatRequest -> Option<string>): seq<string>
  {
    if !Truthy(apiKey) then []
    else
      match chat(KeyPhraseRequest(comments))
      case None => []
      case Some(content) => KeyPhrasesOfReply(content)
  }

  /**
   * `generate_key_phrases`: also returns the request it sent, if any.
   */
  method GenerateKeyPhrases(apiKey: Option<string>, comments: seq<string>, chat: ChatRequest -> Option<string>)
    returns (phrases: seq<string>, sent: Option<ChatRequest>)
    ensures phrases == KeyPhrases(apiKey, comments, chat)
    ensures sent.None? <==> !Truthy(apiKey)
    ensures sent.Some? ==> sent.value == KeyPhraseRequest(comments)
  {
    if !Truthy(apiKey) {
      return [], None;
    }
    var request := KeyPhraseRequest(comments);
    sent := Some(request);
    var reply := chat(request);
    if reply.None? {
      // OpenAIError or any other exception
      return [], sent;
    }
    phrases := ParseKeyPhrases(reply.value);
  }

  /** A missing key gives no phrases, and so does a failed call. */
  lemma KeyPhrasesFailures(apiKey: Option<string>, comments: seq<string>, chat: ChatRequest -> Option<string>)
    ensures !Truthy(apiKey) ==> KeyPhrases(apiKey, comments, chat) == []
    ensures Truthy(apiKey) && chat(KeyPhraseRequest(comments)).None? ==> KeyPhrases(apiKey, comments, chat) == []
    ensures Truthy(apiKey) && chat(KeyPhraseRequest(comments)).Some? ==>
      KeyPhrases(apiKey, comments, chat) == KeyPhrasesOfReply(chat(KeyPhraseRequest(comments)).value)
  {
  }

  // --------------------------------------------------- generate_ai_image

  const ImagePromptHead := "Create an abstract representation of the following YouTube comment analysis summary: "

  /** The image request: prompt, one image, 512x512, returned as a URL. */
  datatype ImageRequest = ImageRequest(prompt: string, n: nat, size: string, responseFormat: string)

  function ImageRequestFor(summary: string): ImageRequest
  {
    ImageRequest(ImagePromptHead + summary, 1, "512x512", "url")
  }

  /** What `generate_ai_image(summary)` returns, with the service's URL (or its failure) given by `image`. */
  function AiImage(apiKey: Option<string>, summary: string, image: ImageRequest -> Option<string>): (url: Option<string>)
    ensures !Truthy(apiKey) ==> url.None?
    ensures Truthy(apiKey) ==> url == image(ImageRequestFor(summary))
  {
    if !Truthy(apiKey) then None else image(ImageRequestFor(summary))
  }

  /** The image prompt is the fixed head followed by the whole summary. */
  lemma ImagePromptCarriesSummary(summary: string)
    ensures var p := ImageRequestFor(summary).prompt;
      p[..|ImagePromptHead|] == ImagePromptHead && p[|ImagePromptHead|..] == summary
  {
  }
}
