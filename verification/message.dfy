/** The chat message record shared by the session, the codec and the views. */
module Messages {
  import opened Results
  import opened JsStrings

  /** The `type` field: `"text"`, `"tombstone"` or `"user-leave"`. */
  datatype MessageType = Text | Tombstone | UserLeave

  /** A message. The authentication fields and the ciphertext are `None` until
      the message has been through `encrypt`; `tombstoneFor` is set on
      tombstones only, and names the message they revoke. */
  datatype Message = Message(
    id: JsString,
    conversationId: JsString,
    sender: JsString,
    content: JsString,
    timestamp: int,
    kind: MessageType,
    tombstoneFor: Option<JsString>,
    signature: Option<JsString>,
    mac: Option<JsString>,
    payload: Option<seq<bv8>>)
}
