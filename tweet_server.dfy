/** The backend that fetches the real tweet: `POST /api/analyze-tweet`
    (extract the id, fetch the tweet, analyse it, store the record, respond)
    and `GET /api/analysis-history`. */
module TweetServer {
  import opened Outcomes
  import opened Analysis
  import opened Airtable
  import opened Http

  /** The parts of a `singleTweet` reply that are read: `data` (absent when
      the tweet was not found) and `includes.users` (empty when absent). */
  datatype Tweet = Tweet(text: string, createdAt: string)
  datatype User = User(username: string)
  datatype Lookup = Lookup(data: Option<Tweet>, users: seq<User>)

  datatype FetchedTweet = FetchedTweet(text: string, createdAt: string, username: string)

  /** Reading the tweet's text and creation time and the first included
      user's name off the reply throws when the call threw, the tweet is
      absent or no user came back; otherwise the three are taken as they are. */
  function ReadLookup(reply: Outcome<Lookup>): (r: Outcome<FetchedTweet>)
    ensures r.Ok? <==> reply.Ok? && reply.value.data.Some? && |reply.value.users| > 0
    ensures r.Ok? ==> && r.value.text == reply.value.data.value.text
                      && r.value.createdAt == reply.value.data.value.createdAt
                      && r.value.username == reply.value.users[0].username
  {
    match reply
    case Threw => Threw
    case Ok(lookup) =>
      if lookup.data.None? || |lookup.users| == 0 then Threw
      else Ok(FetchedTweet(lookup.data.value.text, lookup.data.value.createdAt, lookup.users[0].username))
  }

  class App {
    const table: Table

    constructor (table: Table)
      ensures this.table == table
    {
      this.table := table;
    }

    /** `POST /api/analyze-tweet`. The outside services are given as the answer
        each would give to the argument it is called with. The steps run in
        order and the first one that throws ends the request with a 500; the
        table is written only by the last step, so a request that fails
        leaves it as it was, and one that succeeds adds exactly one row. */
    method AnalyzeTweet(body: RequestBody, twitter: string -> Outcome<Lookup>,
                        openai: ChatRequest -> Outcome<Completion>, airtable: Fields -> Outcome<string>)
      returns (res: Response, calls: seq<Call>)
      modifies table
      ensures res == ProcessFailure || (res.status == 200 && res.body.Analyzed?)
      ensures |table.records| == |old(table.records)| + (if res.status == 200 then 1 else 0)
      ensures res.status != 200 ==> table.records == old(table.records)
      ensures AllAnalysed(old(table.records)) ==> AllAnalysed(table.records)
      ensures body.tweetUrl.None? ==> res == ProcessFailure && calls == []
      ensures body.tweetUrl.Some? ==>
        var id := TweetId(body.tweetUrl.value);
        var fetched := ReadLookup(twitter(id));
        && |calls| >= 1 && calls[0] == SingleTweet(id)
        && (fetched.Threw? ==> res == ProcessFailure && calls == [SingleTweet(id)])
        && (fetched.Ok? ==>
              var t := fetched.value;
              var analysis := Analysis.AnalyzeTweet(t.text, openai);
              && |calls| >= 2 && calls[1] == ChatCompletion(Request(t.text))
              && (analysis.Threw? ==> res == ProcessFailure && |calls| == 2)
              && (analysis.Ok? ==>
                    var fields := RecordFields(t.username, t.text, t.createdAt, analysis.value);
                    && calls == [SingleTweet(id), ChatCompletion(Request(t.text)), TableCreate(fields)]
                    && (airtable(fields).Threw? ==> res == ProcessFailure)
                    && (airtable(fields).Ok? ==>
                          && table.records == old(table.records) + [StoredRecord(airtable(fields).value, fields)]
                          && res == Response(200, Analyzed(WithId(fields, airtable(fields).value))))))
    {
      calls := [];
      if body.tweetUrl.None? {
        res := ProcessFailure;
        return;
      }
      var tweetId := TweetId(body.tweetUrl.value);
      calls := [SingleTweet(tweetId)];
      var fetched := ReadLookup(twitter(tweetId));
      if fetched.Threw? {
        res := ProcessFailure;
        return;
      }
      var tweet := fetched.value;
      calls := [SingleTweet(tweetId), ChatCompletion(Request(tweet.text))];
      var analysis := Analysis.AnalyzeTweet(tweet.text, openai);
      if analysis.Threw? {
        res := ProcessFailure;
        return;
      }
      var fields := RecordFields(tweet.username, tweet.text, tweet.createdAt, analysis.value);
      calls := [SingleTweet(tweetId), ChatCompletion(Request(tweet.text)), TableCreate(fields)];
      SummaryIsFirstLine(ReplyText(openai(Request(tweet.text)).value).value);
      assert Analysed(fields);
      var saved := table.Create(fields, airtable(fields));
      if saved.Threw? {
        res := ProcessFailure;
        return;
      }
      AppendAnalysed(old(table.records), saved.value);
      res := Response(200, Analyzed(WithId(fields, saved.value.id)));
    }

    /** `GET /api/analysis-history`: the fields of every stored row, in the
        store's order, or a 500 with no data when the read fails. */
    method AnalysisHistory(reachable: bool) returns (res: Response)
      ensures !reachable ==> res == HistoryFailure
      ensures reachable ==> && res.status == 200 && res.body.HistoryList?
                            && |res.body.history| == |table.records|
                            && forall k :: 0 <= k < |table.records| ==> res.body.history[k] == table.records[k].fields
    {
      var rows := table.SelectAll(reachable);
      match rows {
        case Threw =>
          res := HistoryFailure;
        case Ok(records) =>
          res := Response(200, HistoryList(Project(records)));
      }
    }
  }
}
