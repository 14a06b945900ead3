/** The Airtable table the backend writes to and reads from: rows with five
    text columns and a store-assigned id, appended by `table.create` and
    listed by `table.select().all()`. */
module Airtable {
  import opened Outcomes
  import opened Analysis

  /** The five columns of a row, as the backend fills them in. */
  datatype Fields = Fields(
    username: string,      // 'Username'
    tweetContent: string,  // 'Tweet Content'
    sentiment: string,     // 'Sentiment'
    summary: string,       // 'Summary'
    dateAndTime: string)   // 'Date and Time'

  /** A stored row: the id the datastore assigned, and its fields. */
  datatype StoredRecord = StoredRecord(id: string, fields: Fields)

  /** The record object built in the analyze handler from the fetched
      tweet and its analysis. */
  function RecordFields(username: string, text: string, createdAt: string, a: AnalysisResult): Fields
  {
    Fields(username, text, Label(a.sentiment), a.summary, createdAt)
  }

  /** The row was written by the analyze handler: its sentiment is one of
      the three labels and its summary is a single line. */
  predicate Analysed(f: Fields)
  {
    f.sentiment in {"positive", "negative", "neutral"} && '\n' !in f.summary
  }

  predicate AllAnalysed(rows: seq<StoredRecord>)
  {
    forall k :: 0 <= k < |rows| ==> Analysed(rows[k].fields)
  }

  /** Appending an analysed row keeps every row analysed. */
  lemma AppendAnalysed(rows: seq<StoredRecord>, r: StoredRecord)
    ensures AllAnalysed(rows) && Analysed(r.fields) ==> AllAnalysed(rows + [r])
  {
  }

  /** Every record assembled from a parsed reply is an analysed row. */
  lemma RecordFieldsAnalysed(username: string, text: string, createdAt: string, output: string)
    ensures Analysed(RecordFields(username, text, createdAt, Parse(output)))
  {
    SummaryIsFirstLine(output);
  }

  const IdKey := "id"

  /** The fields as the JSON object the client receives. */
  function AsObject(f: Fields): (obj: map<string, string>)
    ensures obj.Keys == {"Username", "Tweet Content", "Sentiment", "Summary", "Date and Time"}
    ensures IdKey !in obj
  {
    map["Username" := f.username, "Tweet Content" := f.tweetContent, "Sentiment" := f.sentiment,
        "Summary" := f.summary, "Date and Time" := f.dateAndTime]
  }

  /** The response data of a stored record: its fields, unchanged, spread into
      one object with one more key, `id`, holding the store-assigned id. */
  function WithId(f: Fields, id: string): (data: map<string, string>)
    ensures data.Keys == AsObject(f).Keys + {IdKey}
    ensures data[IdKey] == id
    ensures data - {IdKey} == AsObject(f)
  {
    AsObject(f)[IdKey := id]
  }

  /** The history: the fields of each stored row, in the rows' order. */
  function Project(rows: seq<StoredRecord>): (history: seq<Fields>)
    ensures |history| == |rows|
    ensures forall k :: 0 <= k < |rows| ==> history[k] == rows[k].fields
    decreases |rows|
  {
    if rows == [] then [] else [rows[0].fields] + Project(rows[1..])
  }

  /** The table's contents, held as its sequence of rows in retrieval order.
      Rows are only ever appended. */
  class Table {
    var records: seq<StoredRecord>

    constructor (records: seq<StoredRecord>)
      ensures this.records == records
    {
      this.records := records;
    }

    /** `table.create(record)`. `answer` is the datastore's reply: the id it
        assigned to the new row, or a thrown error. A failed create writes
        nothing. */
    method Create(fields: Fields, answer: Outcome<string>) returns (saved: Outcome<StoredRecord>)
      modifies this
      ensures answer.Threw? ==> saved == Threw && records == old(records)
      ensures answer.Ok? ==> saved == Ok(StoredRecord(answer.value, fields))
                              && records == old(records) + [saved.value]
    {
      match answer {
        case Threw =>
          saved := Threw;
        case Ok(id) =>
          saved := Ok(StoredRecord(id, fields));
          records := records + [saved.value];
      }
    }

    /** `table.select().all()`: every row in retrieval order, or a thrown
        error when the datastore cannot be read (`reachable` is false). */
    method SelectAll(reachable: bool) returns (rows: Outcome<seq<StoredRecord>>)
      ensures reachable ==> rows == Ok(records)
      ensures !reachable ==> rows == Threw
    {
      rows := if reachable then Ok(records) else Threw;
    }
  }
}
