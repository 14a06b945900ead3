/** The backend variant that analyses a fixed sample tweet instead of fetching
    one: the URL is split as before but its id is never used, Twitter is never
    called, and the record's username and text are constants. */
module MockServer {
  import opened Outcomes
  import opened Analysis
  import opened Airtable
  import opened Http

  const SampleText := "This is a sample tweet for demonstration purposes. #AI #Technology"
  const SampleUser := "@sampleuser"

  class App {
    const table: Table

    constructor (table: Table)
      ensures this.table == table
    {
      this.table := table;
    }

    /** `POST /api/analyze-tweet` on the sample tweet. `now` stands for the
        ISO timestamp of the clock at the time of the request. The stored
        record is determined by the analysis of the sample text and `now`
        alone, never by the URL; only the URL's presence matters, because
        splitting a missing URL throws before anything else happens. */
    method AnalyzeTweet(body: RequestBody, openai: ChatRequest -> Outcome<Completion>,
                        airtable: Fields -> Outcome<string>, now: string)
      returns (res: Response, calls: seq<Call>)
      modifies table
      ensures res == ProcessFailure || (res.status == 200 && res.body.Analyzed?)
      ensures |table.records| == |old(table.records)| + (if res.status == 200 then 1 else 0)
      ensures res.status != 200 ==> table.records == old(table.records)
      ensures AllAnalysed(old(table.records)) ==> AllAnalysed(table.records)
      ensures forall c | c in calls :: !c.SingleTweet?
      ensures body.tweetUrl.None? ==> res == ProcessFailure && calls == []
      ensures body.tweetUrl.Some? ==>
        var analysis := Analysis.AnalyzeTweet(SampleText, openai);
        && |calls| >= 1 && calls[0] == ChatCompletion(Request(SampleText))
        && (analysis.Threw? ==> res == ProcessFailure && |calls| == 1)
        && (analysis.Ok? ==>
              var fields := RecordFields(SampleUser, SampleText, now, analysis.value);
              && calls == [ChatCompletion(Request(SampleText)), TableCreate(fields)]
              && (airtable(fields).Threw? ==> res == ProcessFailure)
              && (airtable(fields).Ok? ==>
                    && table.records == old(table.records) + [StoredRecord(airtable(fields).value, fields)]
                    && res == Response(200, Analyzed(WithId(fields, airtable(fields).value)))))
    {
      calls := [];
      if body.tweetUrl.None? {
        res := ProcessFailure;
        return;
      }
      // The source computes the tweet id here and never uses it: only the
      // throw on a missing URL has an effect.
      calls := [ChatCompletion(Request(SampleText))];
      var analysis := Analysis.AnalyzeTweet(SampleText, openai);
      if analysis.Threw? {
        res := ProcessFailure;
        return;
      }
      var fields := RecordFields(SampleUser, SampleText, now, analysis.value);
      calls := [ChatCompletion(Request(SampleText)), TableCreate(fields)];
      SummaryIsFirstLine(ReplyText(openai(Request(SampleText)).value).value);
      assert Analysed(fields);
      var saved := table.Create(fields, airtable(fields));
      if saved.Threw? {
        res := ProcessFailure;
        return;
      }
      AppendAnalysed(old(table.records), saved.value);
      res := Response(200, Analyzed(WithId(fields, saved.value.id)));
    }

    /** `GET /api/analysis-history`, the same route as in the other server. */
    method AnalysisHistory(reachable: bool) returns (res: Response)
      ensures !reachable ==> res == HistoryFailure
      ensures reachable ==> && res.status == 200 && res.body.HistoryList?
                            && |res.body.history| == |table.records|
                            && forall k :: 0 <= k < |table.records| ==> res.body.history[k] == table.records[k].fields
    {
      var rows := table.SelectAll(reachable);
      match rows {
        case Threw =>
          res := HistoryFailure;
        case Ok(records) =>
          res := Response(200, HistoryList(Project(records)));
      }
    }
  }
}
