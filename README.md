# Tweet analyzer backend: request pipeline model

The backend takes a tweet URL and does four things in order. It fetches the tweet from Twitter. It asks an OpenAI chat model for a summary and a sentiment. It stores the result as one row of an Airtable table. Then it answers with the stored row. A second route lists the fields of every stored row.

The repository has two versions of this backend:

- `backend/src/index.js` fetches the real tweet.
- `backend/server.js` analyses a fixed sample tweet and ignores the URL's content.

Both versions share the same `analyzeTweet` parsing and the same history route.

The model is split into these modules:

- `Strings` (`strings.dfy`) holds the JavaScript string operations the pipeline uses:
  - `toLowerCase`, over ASCII only;
  - `includes`, as a left-to-right scan;
  - `split`, with its `join` inverse.
- `Analysis` (`analysis.dfy`) holds `analyzeTweet`:
  - the chat request, with the source's fixed model name and instruction;
  - the summary, which is the first piece of the reply split at `\n`;
  - the sentiment test, which looks for `positive` first and `negative` second, falling back to `neutral`.

  The chat-completion service is a parameter: a function from the request to a thrown error or a completion.
- `Airtable` (`airtable.dfy`) holds:
  - the five columns of a row;
  - the `Table` class, whose rows are a sequence that `Create` appends to and `SelectAll` reads;
  - the response object `{...fields, id}`;
  - the history projection.
- `Http` (`http.dfy`) holds:
  - the request body;
  - the tweet-id extraction (the last `/`-separated piece of the URL);
  - the responses (200 with data, or 500 with the fixed error text);
  - the trace of calls to outside services (`SingleTweet`, `ChatCompletion`, `TableCreate`), with their arguments.
- `TweetServer` (`tweet_server.dfy`) models `backend/src/index.js`. It has an `App` class with a `table` and two methods, one per route. The Twitter lookup, the chat completion and the datastore's answer to `create` are parameters. The handler returns the response and the calls it made, in order.
- `MockServer` (`mock_server.dfy`) models `backend/server.js` in the same way. It never calls Twitter, and the username, text and timestamp it stores do not depend on the URL.

In both handlers, the first step that throws ends the request with `500 {success: false}`. Only the last step writes to the table. So a failed request leaves the table as it was, and a successful one appends exactly one row. The table is never changed in place: rows are only appended.

Two behaviours of the code are easy to misread, and the model follows the code in both:

- The summary is the text before the first `\n`, not the first non-empty line. A reply that starts with a newline has an empty summary (`Analysis.LeadingNewlineEmptySummary`).
- A missing or non-string `tweetUrl` throws when it is split. So the mock server can also answer 500 before it analyses anything.

## Model

| member | source | states |
|---|---|---|
| `Strings.Split` | backend/src/index.js:54 | Splitting a string at a character always gives at least one piece, so taking the first piece or popping the last one always has a value |
| `Strings.SplitJoin` | backend/src/index.js:70 | Joining the pieces of a split with the separator gives back the original string |
| `Strings.SplitPiecesFree` | backend/server.js:69 | No piece of a split contains the separator |
| `Strings.FirstPiece` | backend/server.js:53 | The first piece is the prefix before the first separator, or the whole string; it holds no separator, and the next character is the separator whenever the piece is shorter than the string |
| `Strings.LastPiece` | backend/src/index.js:70 | The last piece is the suffix after the last separator, or the whole string; it holds no separator, and the character before it is the separator whenever it is shorter |
| `Strings.IncludesIff` | backend/src/index.js:55-56 | The left-to-right scan finds the pattern exactly when it occurs at some index (both directions) |
| `Strings.ToLower` | backend/src/index.js:55-56 | `toLowerCase` over ASCII, character by character; `Strings.ToLowerSlice` proves it commutes with slicing, and `Analysis.LowerIncludesIff` proves what searching the lowered text means |
| `Strings.Includes` | backend/src/index.js:55-56 | `includes` as a left-to-right scan; `Strings.IncludesIff` proves it true exactly when the pattern occurs at some index |
| `Analysis.LowerIncludesIff` | backend/server.js:54-55 | Lowering the reply and then searching it finds a word exactly when the reply contains the word in some mix of upper and lower case |
| `Analysis.Label` | backend/src/index.js:55-56 | The sentiment written to the store is always one of "positive", "negative" and "neutral" |
| `Analysis.Request` | backend/src/index.js:38-50 | The chat request: model "gpt-3.5-turbo", the fixed system instruction, and the tweet text as the user message; the `ChatCompletion` entry of each handler's trace records it |
| `Analysis.Summary` | backend/src/index.js:54 | `analysis.split('\n')[0]`; `Analysis.SummaryIsFirstLine` proves it is the text before the first newline, or the whole reply |
| `Analysis.Classify` | backend/src/index.js:55-56 | The ordered test for "positive", then "negative", else neutral; `Analysis.ClassifyMeaning` proves one if-and-only-if per label |
| `Analysis.ReplyText` | backend/src/index.js:52 | `completion.choices[0].message.content`: absent when there is no first choice or its content is null; `Analysis.AnalyzeTweet` proves that analysis fails exactly then |
| `Analysis.Parse` | backend/src/index.js:53-57 | The returned `{summary, sentiment}` object; `Analysis.AnalyzeTweet` proves its two fields are `Summary` and `Classify` of the reply text |
| `Analysis.SummaryIsFirstLine` | backend/src/index.js:54 | The summary is a prefix of the reply and holds no newline; when it is shorter than the reply, the next character is a newline; otherwise it is the whole reply |
| `Analysis.LeadingNewlineEmptySummary` | backend/server.js:53 | A reply that starts with a newline gives an empty summary: the summary is the first line, not the first non-empty line |
| `Analysis.SummaryOfLines` | backend/src/index.js:52-54 | For a reply made of a line without newlines, a newline and anything else, the summary is that line |
| `Analysis.ClassifyMeaning` | backend/src/index.js:55-56 | Sentiment is positive exactly when the reply mentions "positive" in any case; negative exactly when it does not, but mentions "negative"; neutral exactly when it mentions neither. So positive wins a tie |
| `Analysis.PositiveAnywhere` | backend/src/index.js:55 | Any case variant of "positive" at any position makes the reply positive, whatever else it contains |
| `Analysis.NegativeAnywhere` | backend/server.js:54-55 | A reply mentioning "negative" in any case is negative exactly when it does not also mention "positive" |
| `Analysis.AnalyzeTweet` | backend/src/index.js:36-62 | Analysis fails exactly when the chat call throws or its reply has no first choice with content. Otherwise the summary and sentiment are the ones parsed from that content |
| `Analysis.ScenarioPositive` | backend/src/index.js:52-57 | "The tweet discusses AI positively.\nSentiment: positive" gives the summary "The tweet discusses AI positively." and the sentiment positive |
| `Analysis.ScenarioNeutral` | backend/server.js:51-56 | "Neutral observation about weather.\nNo strong sentiment." is neutral, since it mentions neither word |
| `Http.TweetId` | backend/src/index.js:70 | `tweetUrl.split('/').pop()`; `Http.TweetIdIsLastSegment` proves it is the '/'-free suffix after the last '/', or the whole URL |
| `Http.TweetIdIsLastSegment` | backend/src/index.js:69-70 | The tweet id is the suffix of the URL after its last '/', or the whole URL when it has none; it contains no '/' |
| `TweetServer.ReadLookup` | backend/src/index.js:79-82 | Reading the lookup reply fails exactly when the call threw, the tweet data is absent or no user was included. Otherwise the text, creation time and first user's name are taken unchanged |
| `Airtable.RecordFields` | backend/src/index.js:88-96 | The record's five columns from the fetched username, text and creation time and the analysis; `Airtable.RecordFieldsAnalysed` proves every such record well-formed, and the handler rows fix its columns |
| `Airtable.RecordFieldsAnalysed` | backend/src/index.js:87-96 | Every record built from a parsed reply has one of the three sentiment labels and a summary without a newline |
| `Airtable.AppendAnalysed` | backend/server.js:91-92 | Appending such a record keeps every stored row well-formed |
| `Airtable.AsObject` | backend/src/index.js:88-96 | The record object has exactly the five column keys and no `id` key |
| `Airtable.WithId` | backend/src/index.js:101-107 | The response data has the five column keys plus `id`. `id` holds the store-assigned id, and removing `id` gives back the record's fields unchanged |
| `Airtable.Project` | backend/src/index.js:120 | The history has as many entries as there are stored rows, and entry k is row k's fields: same order, nothing added or dropped |
| `Airtable.Table.Create` | backend/src/index.js:99 | A create the datastore accepts appends exactly one row, with the assigned id and the given fields, and returns it. A create that throws leaves the rows as they were |
| `Airtable.Table.SelectAll` | backend/src/index.js:119 | A read returns every stored row in order, or throws when the datastore cannot be read |
| `TweetServer.App.AnalyzeTweet` | backend/src/index.js:65-115 | The calls run in a fixed order: tweet lookup with the extracted id, then chat completion on the tweet text, then table create. A missing URL, a failed lookup, a missing tweet or user, or a failed analysis stops before create, gives 500 and leaves the table unchanged; so does a failed create. On success, the Username, Tweet Content and Date and Time come unchanged from the fetched tweet and the Sentiment and Summary from the analysis; exactly one row is appended and the response data is those fields plus the assigned id. Well-formed stored rows stay well-formed. The call trace is written by the handler beside each service use, so it records the order of the calls rather than being derived from them; the guarantee that no partial row is stored is the set of clauses on the table's rows |
| `TweetServer.App.AnalysisHistory` | backend/src/index.js:117-129 | A successful read answers 200 with each stored row's fields, same length and order. A failed read answers 500 with no data |
| `MockServer.App.AnalyzeTweet` | backend/server.js:64-108 | Twitter is never called. The record is always "@sampleuser" with the fixed sample text and the request's timestamp, and the URL only matters through whether it is present. An analysis failure, or a failed create, gives 500 with no row added. Success appends exactly one row and answers with its fields plus the assigned id. As in the other server, the call trace is written beside each service use; the no-partial-row guarantee is the set of clauses on the table's rows |
| `MockServer.App.AnalysisHistory` | backend/server.js:110-122 | A successful read answers 200 with each stored row's fields, same length and order. A failed read answers 500 |

## Left out

- Express, CORS and dotenv setup, the port choice and `app.listen` are transport plumbing and are not modelled.
- Building the Airtable, OpenAI and Twitter clients, and the network calls themselves, are foreign code. Each call's outcome is a parameter: a function from the call's argument to a value or a thrown error. For reads, it is a flag saying whether the read succeeds.
- The Twitter lookup options (the requested tweet and user fields) are not modelled. The reply is reduced to the tweet's text and creation time and the list of included users.
- A reply whose tweet data has no `text` or `created_at` would pass `undefined` on. The model treats both as strings.
- Asynchronous suspension and interleaving of concurrent requests are not modelled. Each request is one sequential run.
- The clock (`new Date().toISOString()` in the mock tweet) is the parameter `now`, and timestamps are opaque strings. `toLocaleString` in the frontend is not part of this model.
- Logging through `console.log` and `console.error` has no effect on state or responses, so it is left out.
- frontend/src/App.js is a presentational React layer and is not part of this model.
- Airtable.Table.Create: a `create` that throws is taken to have written nothing; a create whose reply is lost after the datastore committed the row is not modelled.
- The argument of `table.create` is the wrapper `{fields: {...}}`; the model passes only its fields (`TableCreate(fields)` and the datastore answer as a function of the fields), since how the Airtable client reads that wrapper is foreign code.
- The uniqueness of store-assigned ids is the datastore's own guarantee and is not modelled.
- The retrieval order of the datastore is taken to be the order rows were appended.
- Strings.ToLower: lowers ASCII letters only. JavaScript's `toLowerCase` also lowers letters of other scripts, which matters only for non-ASCII capitals that lower to one of the letters of "positive" or "negative".
