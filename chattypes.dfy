/** The message object the browser code passes around. */
module ChatTypes {
  import opened Common

  /**
   * A message as the browser sees it: either a server message (the fields of `Message.to_dict()`
   * in models.py) or the temporary object `sendPrivateMessage` builds while a send is in flight
   * (which carries `status` and `temp_media_url` and no id). Timestamps are milliseconds; an id of
   * "" stands for a missing or otherwise falsy `id`.
   */
  datatype ChatMessage = ChatMessage(
    id: string,
    sender: string,
    receiver: string,
    content: Option<string>,
    timestamp: int,
    hasMedia: bool,
    mediaType: Option<string>,
    mediaUrl: Option<string>,
    mediaFilename: Option<string>,
    tempMediaUrl: bool,
    status: Option<string>)

  /** The sort key the client orders messages by. */
  function MessageTime(m: ChatMessage): int {
    m.timestamp
  }

  /** JavaScript `s.startsWith(p)`. */
  predicate StartsWith(s: string, p: string) {
    p <= s
  }

  /** JavaScript `t && t.startsWith(p)` (and `t?.startsWith(p)`) on an optional string. */
  predicate OptStartsWith(t: Option<string>, p: string) {
    t.Some? && StartsWith(t.value, p)
  }
}
