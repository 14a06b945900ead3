/** `analyzeTweet`: one chat-completion call on the tweet text, whose free-text
    reply is cut into a summary (its first line) and a sentiment label (a
    case-insensitive search for "positive", then "negative"). The function and
    its parsing are the same in both servers. */
module Analysis {
  import opened Outcomes
  import opened Strings

  datatype Sentiment = Positive | Negative | Neutral

  /** The string stored in the Sentiment column. */
  function Label(s: Sentiment): (name: string)
    ensures name in {"positive", "negative", "neutral"}
  {
    match s
    case Positive => "positive"
    case Negative => "negative"
    case Neutral => "neutral"
  }

  /** What the chat-completion service is asked: a fixed model and instruction,
      and the tweet text as the user message. */
  datatype ChatRequest = ChatRequest(model: string, system: string, user: string)

  const ChatModel := "gpt-3.5-turbo"
  const Instruction := "You are a tweet analyzer. Analyze the following tweet and provide: 1) A brief summary (1-2 sentences), 2) Sentiment (positive/negative/neutral)"

  function Request(content: string): ChatRequest
  {
    ChatRequest(ChatModel, Instruction, content)
  }

  /** The part of a completion that is read: each choice's message content,
      which the service may leave null. */
  datatype Message = Message(content: Option<string>)
  datatype Completion = Completion(choices: seq<Message>)

  datatype AnalysisResult = AnalysisResult(summary: string, sentiment: Sentiment)

  /** `w` occurs in `s` at index `i`, ignoring the case of ASCII letters in `s`. */
  predicate OccursAnyCase(s: string, w: string, i: nat)
  {
    i + |w| <= |s| && ToLower(s[i..i + |w|]) == w
  }

  /** `s` contains `w` somewhere, in any mix of upper and lower case. */
  ghost predicate Mentions(s: string, w: string)
  {
    exists i: nat :: OccursAnyCase(s, w, i)
  }

  /** Lowering the reply and then searching it for `w` is the case-insensitive search for `w`. */
  lemma LowerIncludesIff(s: string, w: string)
    ensures Includes(ToLower(s), w) <==> Mentions(s, w)
  {
    IncludesIff(ToLower(s), w);
    forall i: nat | i + |w| <= |s|
      ensures OccursAt(ToLower(s), w, i) <==> OccursAnyCase(s, w, i)
    {
      ToLowerSlice(s, i, i + |w|);
    }
  }

  /** The summary: the first piece of the reply split at newlines. */
  function Summary(output: string): string
  {
    Split(output, '\n')[0]
  }

  /** The summary is the text before the first newline, or all of the reply
      when it has none: a prefix of the reply, holding no newline, and
      followed by a newline whenever it is shorter than the reply. */
  lemma SummaryIsFirstLine(output: string)
    ensures var summary := Summary(output);
      && |summary| <= |output| && summary == output[..|summary|]
      && '\n' !in summary
      && (|summary| < |output| ==> output[|summary|] == '\n')
  {
    FirstPiece(output, '\n');
  }

  /** The sentiment: the lowered reply is searched for "positive" first and
      for "negative" second; neutral when neither is found. */
  function Classify(output: string): Sentiment
  {
    var lower := ToLower(output);
    if Includes(lower, "positive") then Positive
    else if Includes(lower, "negative") then Negative
    else Neutral
  }

  /** The sentiment test is case-insensitive and ordered: "positive" anywhere,
      in any case, wins even when "negative" occurs too; then "negative";
      otherwise neutral. */
  lemma ClassifyMeaning(output: string)
    ensures Classify(output) == Positive <==> Mentions(output, "positive")
    ensures Classify(output) == Negative <==> !Mentions(output, "positive") && Mentions(output, "negative")
    ensures Classify(output) == Neutral <==> !Mentions(output, "positive") && !Mentions(output, "negative")
  {
    LowerIncludesIff(output, "positive");
    LowerIncludesIff(output, "negative");
  }

  /** The object `analyzeTweet` returns for the reply text `output`. */
  function Parse(output: string): AnalysisResult
  {
    AnalysisResult(Summary(output), Classify(output))
  }

  /** The message content of the reply's first choice, if there is one. */
  function ReplyText(reply: Completion): Option<string>
  {
    if |reply.choices| == 0 then None else reply.choices[0].content
  }

  /** `analyzeTweet`: it throws when the service call throws or its reply has
      no first choice with content (reading a missing choice, or splitting a
      null content, throws); otherwise it parses that content. */
  function AnalyzeTweet(content: string, openai: ChatRequest -> Outcome<Completion>): (r: Outcome<AnalysisResult>)
    ensures r.Ok? <==> openai(Request(content)).Ok? && ReplyText(openai(Request(content)).value).Some?
    ensures r.Ok? ==> var output := ReplyText(openai(Request(content)).value).value;
      r.value.summary == Summary(output) && r.value.sentiment == Classify(output)
  {
    match openai(Request(content))
    case Threw => Threw
    case Ok(reply) =>
      match ReplyText(reply)
      case None => Threw
      case Some(output) => Ok(Parse(output))
  }

  /** A reply that starts with a newline has an empty summary: the summary is
      the first line, not the first non-empty line. */
  lemma LeadingNewlineEmptySummary(rest: string)
    ensures Summary("\n" + rest) == ""
  {
  }

  /** "negative", in any case, makes a reply negative exactly when it does
      not also mention "positive". */
  lemma NegativeAnywhere(before: string, word: string, after: string)
    requires ToLower(word) == "negative"
    ensures Classify(before + word + after) == Negative <==> !Mentions(before + word + after, "positive")
  {
    var output := before + word + after;
    ClassifyMeaning(output);
    assert output[..|before| + |word|] == before + word;
    assert output[|before|..|before| + |word|] == word;
    assert OccursAnyCase(output, "negative", |before|);
  }

  /** Lowering leaves a string without ASCII capitals unchanged. */
  lemma ToLowerOfLower(w: string)
    requires forall i :: 0 <= i < |w| ==> !IsUpperAscii(w[i])
    ensures ToLower(w) == w
  {
  }

  /** A reply made of a first line, a newline and more text has that line as summary. */
  lemma SummaryOfLines(line: string, rest: string)
    requires '\n' !in line
    ensures Summary(line + "\n" + rest) == line
  {
    var output := line + "\n" + rest;
    assert output[..|line|] == line;
    FirstPieceUnique(output, '\n', line);
  }

  /** Any spelling of "positive", in any case, anywhere in the reply, makes
      it positive, whatever else the reply says. */
  lemma PositiveAnywhere(before: string, word: string, after: string)
    requires ToLower(word) == "positive"
    ensures Classify(before + word + after) == Positive
  {
    var output := before + word + after;
    ClassifyMeaning(output);
    assert output[..|before| + |word|] == before + word;
    assert output[|before|..|before| + |word|] == word;
    assert OccursAnyCase(output, "positive", |before|);
  }

  /** The summary-line-then-sentiment-line reply: its first line is the
      summary, and it is positive. */
  lemma ScenarioPositive()
    ensures Parse("The tweet discusses AI positively.\nSentiment: positive")
         == AnalysisResult("The tweet discusses AI positively.", Positive)
  {
    ScenarioPositiveSummary();
    ScenarioPositiveSentiment();
  }

  lemma ScenarioPositiveSummary()
    ensures Summary("The tweet discusses AI positively.\nSentiment: positive")
         == "The tweet discusses AI positively."
  {
    var line, rest := "The tweet discusses AI positively.", "Sentiment: positive";
    assert line + "\n" + rest == "The tweet discusses AI positively.\nSentiment: positive";
    SummaryOfLines(line, rest);
  }

  lemma ScenarioPositiveSentiment()
    ensures Classify("The tweet discusses AI positively.\nSentiment: positive") == Positive
  {
    var before, word := "The tweet discusses AI ", "positive";
    var line, rest := before + word + "ly.", "Sentiment: positive";
    assert line == "The tweet discusses AI positively.";
    assert line + "\n" + rest == "The tweet discusses AI positively.\nSentiment: positive";
    assert before + word + ("ly." + "\n" + rest) == line + "\n" + rest;
    ToLowerOfLower(word);
    PositiveAnywhere(before, word, "ly." + "\n" + rest);
  }

  /** `w` is not mentioned in `s` when one of its letters, at offset `d`,
      could only come from index `j` of `s`, and `w` does not occur there. */
  lemma LetterOnlyAt(s: string, w: string, d: nat, j: nat)
    requires d < |w| && d <= j
    requires forall k :: 0 <= k < |s| && k != j ==> LowerChar(s[k]) != w[d]
    requires !OccursAnyCase(s, w, j - d)
    ensures !Mentions(s, w)
  {
    forall i: nat ensures !OccursAnyCase(s, w, i) {
      if i + |w| <= |s| {
        assert ToLower(s[i..i + |w|])[d] == LowerChar(s[i + d]);
      }
    }
  }

  /** Neither case of the letter `c` occurs in `s`. */
  predicate LacksLetter(s: string, c: char)
    requires 'a' <= c <= 'z'
  {
    c !in s && (c as int - 32) as char !in s
  }

  /** `w` is not mentioned in `a + [x] + b` when the letter at offset `d` of
      `w` occurs only as `x`, and `w` does not occur where that would place it. */
  lemma LetterOnlyBetween(a: string, x: char, b: string, w: string, d: nat)
    requires d < |w| && d <= |a| && 'a' <= w[d] <= 'z'
    requires LacksLetter(a, w[d]) && LacksLetter(b, w[d])
    requires !OccursAnyCase(a + [x] + b, w, |a| - d)
    ensures !Mentions(a + [x] + b, w)
  {
    var s := a + [x] + b;
    forall k | 0 <= k < |s| && k != |a|
      ensures LowerChar(s[k]) != w[d]
    {
      if k < |a| {
        assert s[k] == a[k];
      } else {
        assert s[k] == b[k - |a| - 1];
      }
    }
    LetterOnlyAt(s, w, d, |a|);
  }

  /** A reply with neither word in it is neutral. */
  lemma ScenarioNeutral()
    ensures Classify("Neutral observation about weather.\nNo strong sentiment.") == Neutral
  {
    var a, b := "Neutral obser", "ation about weather." + "\n" + "No strong sentiment.";
    assert a + "v" + b == "Neutral observation about weather." + "\n" + "No strong sentiment.";
    assert a + "v" + b == "Neutral observation about weather.\nNo strong sentiment.";
    NeutralLacksPositive(a, b);
    NeutralLacksNegative(a, b);
    ClassifyMeaning(a + "v" + b);
  }

  /** It has no 'p' at all, so no "positive". */
  lemma NeutralLacksPositive(a: string, b: string)
    requires a == "Neutral obser" && b == "ation about weather." + "\n" + "No strong sentiment."
    ensures !Mentions(a + "v" + b, "positive")
  {
    assert LacksLetter(a, 'p') && LacksLetter(b, 'p');
    assert ToLower((a + "v" + b)[|a|..|a| + 8])[0] == 'v';
    LetterOnlyBetween(a, 'v', b, "positive", 0);
  }

  /** Its one 'v' would put "negative" at " observa", which starts with a space. */
  lemma NeutralLacksNegative(a: string, b: string)
    requires a == "Neutral obser" && b == "ation about weather." + "\n" + "No strong sentiment."
    ensures !Mentions(a + "v" + b, "negative")
  {
    assert LacksLetter(a, 'v') && LacksLetter(b, 'v');
    assert ToLower((a + "v" + b)[|a| - 6..|a| + 2])[0] == ' ';
    LetterOnlyBetween(a, 'v', b, "negative", 6);
  }
}
