/**
 * The events carried by the stream, as the client sees them after `JSON.parse`.
 * Only the `type` tag is inspected by the decoder and by the node tree; every
 * other field of the record is carried as opaque text.
 */
module Events {
  import opened Wrappers

  /**
   * A parsed record. `tag` is the value of its `type` field when that is a
   * string, and None when the field is missing or is not a string (a value
   * that is not an object at all, such as `null`, has no tag either).
   */
  datatype Event = Event(tag: Option<string>, attributes: map<string, string>)

  const ErrorTag: string := "error"

  /** `data.type === 'error'` */
  predicate IsError(e: Event) {
    e.tag == Some(ErrorTag)
  }

  /** `{ type: 'error', message: m }`, the event the client synthesises itself. */
  function ErrorEvent(message: string): (e: Event)
    ensures IsError(e)
    ensures "message" in e.attributes && e.attributes["message"] == message
  {
    Event(Some(ErrorTag), map["message" := message])
  }
}
