/**
  The JSON envelopes nodes exchange. A received object is read with
  `dict.get`, so every field may be absent; fields are modelled as
  string-valued or absent.
 */
module Wire {

  import opened Wrappers
  import opened Fernet

  datatype Envelope = Envelope(
    kind: Option<string>,      // "type"
    nodeId: Option<string>,    // "node_id"
    status: Option<string>,    // "status"
    key: Option<string>,       // "key"
    content: Option<Token>)    // "content", the Fernet token of a chat message

  /** The initiator's opening message. */
  function Handshake(nodeId: string, key: string): Envelope {
    Envelope(Some("handshake"), Some(nodeId), None, Some(key), None)
  }

  /** The responder's reply to a fresh handshake. */
  function HandshakeResponse(nodeId: string, key: string): Envelope {
    Envelope(Some("handshake_response"), Some(nodeId), Some("accepted"), Some(key), None)
  }

  /** A chat message; its timestamp is left out. */
  function ChatMessage(t: Token): Envelope {
    Envelope(Some("chat_message"), None, None, None, Some(t))
  }

  /**
    What one read of a peer socket yields: an empty read (the peer
    closed), a failure (the read raised, or the bytes were not a JSON
    object), or an envelope.
   */
  datatype Frame = EndOfStream | Broken | Received(env: Envelope)
}
