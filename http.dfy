/** The request and response shapes of the two routes, and the calls a
    request makes to the outside services, in the order it makes them. */
module Http {
  import opened Outcomes
  import opened Strings
  import Analysis
  import opened Airtable

  /** The JSON body of a POST to `/api/analyze-tweet`: its `tweetUrl`, or None
      when that is missing or not a string (splitting it then throws). */
  datatype RequestBody = RequestBody(tweetUrl: Option<string>)

  /** The tweet id: the last piece of the URL split at '/'. */
  function TweetId(url: string): string
  {
    var parts := Split(url, '/');
    parts[|parts| - 1]
  }

  /** The tweet id is what follows the last '/' of the URL, or the whole URL
      when it has none: a suffix holding no '/', preceded by a '/' whenever
      it is shorter than the URL. */
  lemma TweetIdIsLastSegment(url: string)
    ensures IsAfterLast(url, '/', TweetId(url))
  {
    LastPiece(url, '/');
  }

  /** The JSON body of a response. */
  datatype Body =
    | Analyzed(record: map<string, string>)// { success: true, data: { ...fields, id } }
    | HistoryList(history: seq<Fields>)    // { success: true, data: history }
    | Failed(error: string)                // { success: false, error }

  datatype Response = Response(status: nat, body: Body)

  const ProcessFailure := Response(500, Failed("Failed to process tweet"))
  const HistoryFailure := Response(500, Failed("Failed to fetch analysis history"))

  /** A call into a foreign service, with the argument it was given. */
  datatype Call =
    | SingleTweet(tweetId: string)                    // twitterClient.v2.singleTweet
    | ChatCompletion(request: Analysis.ChatRequest)   // openai.chat.completions.create
    | TableCreate(fields: Fields)                     // table.create
}
