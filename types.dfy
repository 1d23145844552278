/** The record shapes shared by the parser, the transformer and the API handler. */
module Types {
  import opened Wrappers
  import opened JsObject

  /** One cell of a row object: `undefined`/`null`, or a string. */
  datatype Cell = Missing | Text(s: string)

  /** ExcelRow: column name to cell, in insertion order. */
  type Row = Obj<Cell>

  /** The property `row[field]`, `Missing` when the row has no such key. */
  function Lookup(row: Row, field: string): Cell
  {
    match Get(row, field)
    case None => Missing
    case Some(c) => c
  }

  datatype Metadata = Metadata(source: string, fileName: string, rowNumber: nat)

  /** WebhookEvent; `data` is the row after key canonicalisation. */
  datatype WebhookEvent = WebhookEvent(
    eventId: string,
    transactionId: string,
    timestamp: string,
    eventType: string,
    data: Obj<string>,
    metadata: Metadata)
}
