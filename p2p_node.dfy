/**
  The peer bookkeeping of one chat node. Sockets are abstract handles;
  what the node writes to them is recorded in `outbox` and the handles it
  closes in `closed`. Whatever the network answers (whether a connect or
  a write succeeds, what a read returns) is passed in as an argument, and
  each handler runs as one atomic step.
 */
module P2P {

  import opened Wrappers
  import opened Fernet
  import opened Wire
  import opened NodeInput

  type Socket = nat

  /** The key of the node's maps: the peer's `node_id`, `None` when a handshake carried none. */
  type PeerId = Option<string>

  datatype Address = Address(host: string, port: int)

  /** How the responder side of a handshake ended. */
  datatype IncomingOutcome =
    | NotHandshake     // the first message was not a handshake: nothing happens, the socket stays open
    | HandshakeFailed  // unreadable handshake, no key, or the reply could not be written: socket closed
    | DuplicatePeer    // the peer id is already connected: socket closed, nothing sent
    | PeerRegistered   // reply sent, peer registered with its key; its receive loop starts
    | PeerKeyRejected  // reply sent and socket registered, but the key was malformed: socket closed

  /**
    Which way the responder side ends, in the order the handler checks:
    a readable message, its type, its key, the duplicate check, the
    reply, and the key's validity.
   */
  function ResponderOutcome(connections: map<PeerId, Socket>, data: Option<Envelope>, replySent: bool): (r: IncomingOutcome)
    // the reply goes out, and the socket is registered, exactly for a readable keyed handshake from a new peer
    ensures r == PeerRegistered || r == PeerKeyRejected <==>
      && data.Some? && data.value.kind == Some("handshake") && data.value.key.Some?
      && data.value.nodeId !in connections && replySent
    ensures r == PeerRegistered ==> ValidKey(data.value.key.value)
    // a keyed handshake from a connected peer is refused, whatever the network does
    ensures r == DuplicatePeer <==>
      data.Some? && data.value.kind == Some("handshake") && data.value.key.Some? && data.value.nodeId in connections
    ensures r == NotHandshake <==> data.Some? && data.value.kind != Some("handshake")
  {
    if data.None? then HandshakeFailed
    else if data.value.kind != Some("handshake") then NotHandshake
    else if data.value.key.None? then HandshakeFailed
    else if data.value.nodeId in connections then DuplicatePeer
    else if !replySent then HandshakeFailed
    else if ValidKey(data.value.key.value) then PeerRegistered
    else PeerKeyRejected
  }

  /** `after` keeps every entry of `before` as it was: registrations are added, never replaced or dropped. */
  ghost predicate Keeps(before: map<PeerId, Socket>, after: map<PeerId, Socket>) {
    forall p :: p in before ==> p in after && after[p] == before[p]
  }

  lemma AddKeeps(m: map<PeerId, Socket>, p: PeerId, s: Socket)
    requires p !in m
    ensures Keeps(m, m[p := s])
  {
  }

  /** What the network does with an outgoing connection attempt. */
  datatype ConnectReply = ConnectReply(
    reachable: bool,             // `peer_socket.connect((host, port))` succeeds
    sent: bool,                  // writing the handshake succeeds
    response: Option<Envelope>)  // the answer read back; `None` if the read or `json.loads` fails

  /** How `connect_to_peer` ended. */
  datatype ConnectOutcome =
    | InvalidAddress      // the text is not `peer_id@host:port`
    | SelfOrConnected     // the node itself, or a peer already connected
    | ConnectFailed       // connect, write or read failed
    | ResponseRejected    // the answer's status is not `accepted`
    | PeerConnected       // registered in all three maps; its receive loop starts
    | ConnectKeyRejected  // registered in `connections` and `peers`, but the answer's key is missing or malformed

  /**
    Which way the initiator side ends once the address has parsed and the
    peer is neither the node itself nor connected.
   */
  function InitiatorOutcome(port: int, reply: ConnectReply): (r: ConnectOutcome)
    // the peer is registered exactly when the exchange completes with an `accepted` answer
    ensures r == PeerConnected || r == ConnectKeyRejected <==>
      && 0 <= port < 0x1_0000 && reply.reachable && reply.sent
      && reply.response.Some? && reply.response.value.status == Some("accepted")
    ensures r == PeerConnected ==> reply.response.value.key.Some? && ValidKey(reply.response.value.key.value)
    ensures r == ResponseRejected ==> reply.response.Some? && reply.response.value.status != Some("accepted")
  {
    if !(0 <= port < 0x1_0000) || !reply.reachable || !reply.sent || reply.response.None? then ConnectFailed
    else if reply.response.value.status != Some("accepted") then ResponseRejected
    else if reply.response.value.key.Some? && ValidKey(reply.response.value.key.value) then PeerConnected
    else ConnectKeyRejected
  }

  datatype SendOutcome = NotConnected | SendFailed | Sent

  /** The network's answer to one console line: the socket a `connect` gets, its reply, and whether a `msg` write succeeds. */
  datatype LineNetwork = LineNetwork(socket: Socket, reply: ConnectReply, sent: bool)

  /** The part of a node's state the console commands change. */
  datatype NodeState = NodeState(
    connections: map<PeerId, Socket>,
    keys: map<PeerId, Cipher>,
    peers: map<PeerId, Address>,
    outbox: seq<(Socket, Envelope)>)

  /**
    What the socket part of `connect_to_peer` does to the state, step by
    step: write the handshake once connected, register the socket and
    address on an `accepted` answer, and then the key if it is well formed.
   */
  function InitiateEffect(nodeId: string, key: string, s: NodeState, a: PeerAddress, socket: Socket, reply: ConnectReply): (r: NodeState)
    ensures r.outbox ==
      if 0 <= a.port < 0x1_0000 && reply.reachable && reply.sent then s.outbox + [(socket, Handshake(nodeId, key))] else s.outbox
    ensures InitiatorOutcome(a.port, reply) == PeerConnected || InitiatorOutcome(a.port, reply) == ConnectKeyRejected ==>
      && r.connections == s.connections[Some(a.peerId) := socket]
      && r.peers == s.peers[Some(a.peerId) := Address(a.host, a.port)]
    ensures InitiatorOutcome(a.port, reply) != PeerConnected && InitiatorOutcome(a.port, reply) != ConnectKeyRejected ==>
      r.connections == s.connections && r.peers == s.peers
    ensures InitiatorOutcome(a.port, reply) == PeerConnected ==>
      r.keys == s.keys[Some(a.peerId) := Cipher(reply.response.value.key.value)]
    ensures InitiatorOutcome(a.port, reply) != PeerConnected ==> r.keys == s.keys
  {
    var p := Some(a.peerId);
    if !(0 <= a.port < 0x1_0000) || !reply.reachable || !reply.sent then s
    else
      var written := s.(outbox := s.outbox + [(socket, Handshake(nodeId, key))]);
      if reply.response.None? || reply.response.value.status != Some("accepted") then written
      else
        var registered := written.(connections := s.connections[p := socket], peers := s.peers[p := Address(a.host, a.port)]);
        var peerKey := reply.response.value.key;
        if peerKey.Some? && MakeCipher(peerKey.value).Some? then
          registered.(keys := s.keys[p := MakeCipher(peerKey.value).value])
        else registered
  }

  /** What `connect_to_peer(peer_info)` does to the state. */
  function ConnectEffect(nodeId: string, key: string, s: NodeState, peerInfo: string, socket: Socket, reply: ConnectReply): (r: NodeState)
    // text that does not parse changes nothing
    ensures ParsePeerInfo(peerInfo).None? ==> r == s
    // nor does the node itself or a connected peer
    ensures ParsePeerInfo(peerInfo).Some? ==>
      var a := ParsePeerInfo(peerInfo).value;
      a.peerId == nodeId || Some(a.peerId) in s.connections ==> r == s
    ensures Keeps(s.connections, r.connections)
    // a key is stored only along with a new connection
    ensures r.keys != s.keys ==> r.connections != s.connections
    ensures r.outbox == s.outbox || r.outbox == s.outbox + [(socket, Handshake(nodeId, key))]
  {
    match ParsePeerInfo(peerInfo)
    case None => s
    case Some(a) =>
      if a.peerId == nodeId || Some(a.peerId) in s.connections then s
      else InitiateEffect(nodeId, key, s, a, socket, reply)
  }

  /**
    What `send_message(peer_id, content)` does to the state. A write to a
    socket in `closed`, one the node closed itself, raises; otherwise the
    write succeeds exactly if `sent`.
   */
  function SendEffect(s: NodeState, closed: set<Socket>, peerId: string, content: string, sent: bool): (r: NodeState)
    ensures r.connections == s.connections && r.keys == s.keys && r.peers == s.peers
    ensures Some(peerId) !in s.connections ==> r == s
    ensures r.outbox != s.outbox <==>
      Some(peerId) in s.connections && Some(peerId) in s.keys && s.connections[Some(peerId)] !in closed && sent
    ensures r.outbox != s.outbox ==>
      r.outbox == s.outbox + [(s.connections[Some(peerId)], ChatMessage(Encrypt(s.keys[Some(peerId)], content)))]
  {
    var p := Some(peerId);
    if p in s.connections && p in s.keys && s.connections[p] !in closed && sent then
      s.(outbox := s.outbox + [(s.connections[p], ChatMessage(Encrypt(s.keys[p], content)))])
    else s
  }

  /** What one pass of the console loop's `if`/`elif` chain does to the state. */
  function ExecuteEffect(nodeId: string, key: string, s: NodeState, closed: set<Socket>, command: Command, network: LineNetwork): (r: NodeState)
    ensures !command.Connect? && !command.Message? ==> r == s
    ensures command.Message? ==> r.connections == s.connections && r.keys == s.keys && r.peers == s.peers
    ensures Keeps(s.connections, r.connections)
    ensures s.outbox <= r.outbox
  {
    match command
    case Connect(info) => ConnectEffect(nodeId, key, s, info, network.socket, network.reply)
    case Message(peer, text) => SendEffect(s, closed, peer, text, network.sent)
    case _ => s
  }

  /**
    What the console loop does to the state by acting on `commands` in
    order. Registrations in `connections` accumulate, writes are only
    appended, and only `connect` lines touch the three maps.
   */
  function RunEffect(nodeId: string, key: string, s: NodeState, closed: set<Socket>, commands: seq<Command>, network: seq<LineNetwork>): (r: NodeState)
    requires |network| == |commands|
    ensures Keeps(s.connections, r.connections)
    ensures s.outbox <= r.outbox
    ensures (forall i :: 0 <= i < |commands| ==> !commands[i].Connect?) ==>
      r.connections == s.connections && r.keys == s.keys && r.peers == s.peers
    decreases |commands|
  {
    if commands == [] then s
    else
      var n := |commands| - 1;
      ExecuteEffect(nodeId, key, RunEffect(nodeId, key, s, closed, commands[..n], network[..n]), closed, commands[n], network[n])
  }

  /** Acting on one more command applies its effect to the state the earlier ones left. */
  lemma RunEffectStep(nodeId: string, key: string, s: NodeState, closed: set<Socket>, commands: seq<Command>, network: seq<LineNetwork>, n: nat)
    requires |network| == |commands| && n < |commands|
    ensures RunEffect(nodeId, key, s, closed, commands[..n + 1], network[..n + 1])
      == ExecuteEffect(nodeId, key, RunEffect(nodeId, key, s, closed, commands[..n], network[..n]), closed, commands[n], network[n])
  {
    assert commands[..n + 1][..n] == commands[..n];
    assert network[..n + 1][..n] == network[..n];
  }

  /** The command each console line asks for. */
  function Commands(lines: seq<string>): (r: seq<Command>)
    ensures |r| == |lines|
  {
    seq(|lines|, i requires 0 <= i < |lines| => Dispatch(lines[i]))
  }

  /**
    How many commands the console loop acts on before a `quit` or
    `exit`: the position of the first `Quit`, or all of them.
   */
  function FirstQuit(commands: seq<Command>): (n: nat)
    ensures n <= |commands|
    ensures forall j :: 0 <= j < n ==> commands[j] != Quit
    ensures n < |commands| ==> commands[n] == Quit
  {
    FirstQuitFrom(commands, 0)
  }

  /** Nothing after the first `quit`/`exit` is acted on: the loop acts on exactly the lines before it. */
  lemma {:induction false} FirstQuitAt(before: seq<Command>, after: seq<Command>)
    requires forall i :: 0 <= i < |before| ==> before[i] != Quit
    ensures FirstQuit(before + [Quit] + after) == |before|
    ensures (before + [Quit] + after)[..|before|] == before
  {
    var commands := before + [Quit] + after;
    assert commands[|before|] == Quit;
    assert forall i :: 0 <= i < |before| ==> commands[i] == before[i];
  }

  /** The position of the first `Quit` at or after position `i`. */
  function FirstQuitFrom(commands: seq<Command>, i: nat): (n: nat)
    requires i <= |commands|
    ensures i <= n <= |commands|
    ensures forall j :: i <= j < n ==> commands[j] != Quit
    ensures n < |commands| ==> commands[n] == Quit
    decreases |commands| - i
  {
    if i == |commands| || commands[i] == Quit then i
    else FirstQuitFrom(commands, i + 1)
  }

  /** A read after which the receive loop stops. */
  predicate EndsReceiving(c: Cipher, f: Frame) {
    match f
    case EndOfStream => true
    case Broken => true
    case Received(e) =>
      e.kind == Some("chat_message") && (e.content.None? || Decrypt(c, e.content.value).None?)
  }

  /**
    The plaintexts a receive loop delivers from the reads `frames`: every
    chat message, opened with the node's own cipher, up to the first read
    that ends the loop. Other envelope types are skipped.
   */
  function Delivered(c: Cipher, frames: seq<Frame>): (r: seq<string>)
    ensures |r| <= |frames|
  {
    if frames == [] || EndsReceiving(c, frames[0]) then []
    else if frames[0].env.kind != Some("chat_message") then Delivered(c, frames[1..])
    else [Decrypt(c, frames[0].env.content.value).value] + Delivered(c, frames[1..])
  }

  /** Every delivered plaintext arrived as a chat message sealed under the receiver's own key. */
  lemma {:induction false} DeliveredSealedForReceiver(c: Cipher, frames: seq<Frame>, k: nat)
    requires k < |Delivered(c, frames)|
    ensures exists i ::
      && 0 <= i < |frames|
      && frames[i].Received?
      && frames[i].env.kind == Some("chat_message")
      && frames[i].env.content == Some(Encrypt(c, Delivered(c, frames)[k]))
  {
    var f := frames[0];
    if f.env.kind != Some("chat_message") {
      DeliveredSealedForReceiver(c, frames[1..], k);
      var i :| 0 <= i < |frames[1..]| && frames[1..][i].Received?
        && frames[1..][i].env.kind == Some("chat_message")
        && frames[1..][i].env.content == Some(Encrypt(c, Delivered(c, frames[1..])[k]));
      assert frames[i + 1] == frames[1..][i];
    } else if k == 0 {
      DecryptAuthentic(c, f.env.content.value, Delivered(c, frames)[0]);
      assert frames[0] == f;
    } else {
      DeliveredSealedForReceiver(c, frames[1..], k - 1);
      var i :| 0 <= i < |frames[1..]| && frames[1..][i].Received?
        && frames[1..][i].env.kind == Some("chat_message")
        && frames[1..][i].env.content == Some(Encrypt(c, Delivered(c, frames[1..])[k - 1]));
      assert frames[i + 1] == frames[1..][i];
    }
  }

  /** The chat messages a sender writes for `plaintexts`, sealed under `c`. */
  function ChatFrames(c: Cipher, plaintexts: seq<string>): (r: seq<Frame>)
    ensures |r| == |plaintexts|
  {
    seq(|plaintexts|, i requires 0 <= i < |plaintexts| => Received(ChatMessage(Encrypt(c, plaintexts[i]))))
  }

  /** Chat messages sealed under the receiver's key are delivered, all of them and in order. */
  lemma {:induction false} DeliveredChatFrames(c: Cipher, plaintexts: seq<string>)
    ensures Delivered(c, ChatFrames(c, plaintexts)) == plaintexts
  {
    if plaintexts != [] {
      assert ChatFrames(c, plaintexts)[1..] == ChatFrames(c, plaintexts[1..]);
      DeliveredChatFrames(c, plaintexts[1..]);
    }
  }

  /** Nothing after a read that ends the loop is delivered: an end of stream, a failed read, or a chat message that does not open. */
  lemma {:induction false} DeliveredStopsAt(c: Cipher, before: seq<Frame>, stop: Frame, after: seq<Frame>)
    requires EndsReceiving(c, stop)
    ensures Delivered(c, before + [stop] + after) == Delivered(c, before)
  {
    if before == [] {
      assert (before + [stop] + after)[0] == stop;
    } else {
      assert (before + [stop] + after)[0] == before[0];
      assert (before + [stop] + after)[1..] == before[1..] + [stop] + after;
      DeliveredStopsAt(c, before[1..], stop, after);
    }
  }

  class Node {
    const nodeId: string
    const key: string                    // this node's own Fernet key, sent to every peer
    const cipher: Cipher                 // `Fernet(self.key)`: opens what peers send here
    var connections: map<PeerId, Socket>
    var keys: map<PeerId, Cipher>        // each peer's own key: seals what is sent to that peer
    var peers: map<PeerId, Address>      // filled only by outgoing connects
    var running: bool
    var listener: Option<Socket>         // `self.socket`
    var outbox: seq<(Socket, Envelope)>  // every envelope written, in order, with its socket
    var closed: set<Socket>              // every socket closed

    function State(): NodeState
      reads this`connections, this`keys, this`peers, this`outbox
    {
      NodeState(connections, keys, peers, outbox)
    }

    /** `P2PNode(node_id)`, given the key `Fernet.generate_key()` produced. */
    constructor (nodeId: string, key: string)
      requires ValidKey(key)
      ensures this.nodeId == nodeId && this.key == key && cipher == Cipher(key)
      ensures connections == map[] && keys == map[] && peers == map[]
      ensures !running && listener == None && outbox == [] && closed == {}
    {
      this.nodeId := nodeId;
      this.key := key;
      cipher := Cipher(key);
      connections, keys, peers := map[], map[], map[];
      running := false;
      listener := None;
      outbox, closed := [], {};
    }

    /**
      The state part of `start`: the listening socket is recorded first;
      if it binds the node runs, otherwise the node is stopped.
     */
    method Start(socket: Socket, bound: bool)
      modifies this
      ensures listener == Some(socket)
      ensures connections == old(connections) && keys == old(keys) && peers == old(peers) && outbox == old(outbox)
      ensures bound ==> running && closed == old(closed)
      ensures !bound ==> !running && closed == old(closed) + connections.Values + {socket}
    {
      listener := Some(socket);
      if bound {
        running := true;
      } else {
        Stop();
      }
    }

    /**
      `_handle_incoming_connection`: the responder side of a handshake on
      the accepted socket `socket`. `data` is the first message read from
      it (`None` if the read or `json.loads` fails) and `replySent` says
      whether writing the reply succeeds.
     */
    method HandleIncoming(socket: Socket, data: Option<Envelope>, replySent: bool) returns (outcome: IncomingOutcome)
      modifies this`connections, this`keys, this`outbox, this`closed
      ensures outcome == ResponderOutcome(old(connections), data, replySent)
      // an existing registration is never replaced
      ensures Keeps(old(connections), connections)
      // what each ending leaves behind
      ensures outcome == NotHandshake ==>
        connections == old(connections) && keys == old(keys) && outbox == old(outbox) && closed == old(closed)
      ensures outcome == HandshakeFailed || outcome == DuplicatePeer ==>
        connections == old(connections) && keys == old(keys) && outbox == old(outbox) && closed == old(closed) + {socket}
      ensures outcome == PeerRegistered ==>
        && connections == old(connections)[data.value.nodeId := socket]
        && keys == old(keys)[data.value.nodeId := Cipher(data.value.key.value)]
        && outbox == old(outbox) + [(socket, HandshakeResponse(nodeId, key))]
        && closed == old(closed)
      ensures outcome == PeerKeyRejected ==>
        && connections == old(connections)[data.value.nodeId := socket]
        && keys == old(keys)
        && outbox == old(outbox) + [(socket, HandshakeResponse(nodeId, key))]
        && closed == old(closed) + {socket}
    {
      if data.None? {
        closed := closed + {socket};
        return HandshakeFailed;
      }
      var handshake := data.value;
      if handshake.kind != Some("handshake") {
        return NotHandshake;
      }
      if handshake.key.None? {
        // `None.encode()` raises
        closed := closed + {socket};
        return HandshakeFailed;
      }
      var peerId := handshake.nodeId;
      if peerId in connections {
        closed := closed + {socket};
        return DuplicatePeer;
      }
      if !replySent {
        closed := closed + {socket};
        return HandshakeFailed;
      }
      outbox := outbox + [(socket, HandshakeResponse(nodeId, key))];
      AddKeeps(connections, peerId, socket);
      connections := connections[peerId := socket];
      match MakeCipher(handshake.key.value)
      case Some(peerCipher) =>
        keys := keys[peerId := peerCipher];
        outcome := PeerRegistered;
      case None =>
        // `Fernet(peer_key)` raises after the socket was registered
        closed := closed + {socket};
        outcome := PeerKeyRejected;
    }

    /**
      `connect_to_peer(peer_info)`: parse the address and refuse the node
      itself or a peer already connected before any socket work; then
      run the initiator side of the handshake on the new socket `socket`,
      with the network's behaviour in `reply`.
     */
    method ConnectToPeer(peerInfo: string, socket: Socket, reply: ConnectReply) returns (outcome: ConnectOutcome)
      modifies this`connections, this`keys, this`peers, this`outbox
      ensures ParsePeerInfo(peerInfo).None? ==> outcome == InvalidAddress
      ensures ParsePeerInfo(peerInfo).Some? ==>
        var a := ParsePeerInfo(peerInfo).value;
        if a.peerId == nodeId || Some(a.peerId) in old(connections) then
          outcome == SelfOrConnected
        else
          && outcome == InitiatorOutcome(a.port, reply)
          && (0 <= a.port < 0x1_0000 && reply.reachable && reply.sent ==>
                outbox == old(outbox) + [(socket, Handshake(nodeId, key))])
          && (outcome == PeerConnected || outcome == ConnectKeyRejected ==>
                && connections == old(connections)[Some(a.peerId) := socket]
                && peers == old(peers)[Some(a.peerId) := Address(a.host, a.port)])
          && (outcome == PeerConnected ==> keys == old(keys)[Some(a.peerId) := Cipher(reply.response.value.key.value)])
      // every other ending registers nothing
      ensures outcome != PeerConnected && outcome != ConnectKeyRejected ==>
        connections == old(connections) && peers == old(peers)
      ensures outcome != PeerConnected ==> keys == old(keys)
      // the handshake is the only thing ever written
      ensures outbox == old(outbox) || outbox == old(outbox) + [(socket, Handshake(nodeId, key))]
      ensures outcome == InvalidAddress || outcome == SelfOrConnected ==> outbox == old(outbox)
      ensures Keeps(old(connections), connections)
      ensures State() == ConnectEffect(nodeId, key, old(State()), peerInfo, socket, reply)
    {
      var parsed := ParsePeerInfo(peerInfo);
      if parsed.None? {
        return InvalidAddress;
      }
      var a := parsed.value;
      if a.peerId == nodeId || Some(a.peerId) in connections {
        return SelfOrConnected;
      }
      outcome := Initiate(a, socket, reply);
    }

    /** The socket part of `connect_to_peer`, for a peer that is neither this node nor connected. */
    method Initiate(a: PeerAddress, socket: Socket, reply: ConnectReply) returns (outcome: ConnectOutcome)
      requires Some(a.peerId) !in connections
      modifies this`connections, this`keys, this`peers, this`outbox
      ensures outcome == InitiatorOutcome(a.port, reply)
      ensures State() == InitiateEffect(nodeId, key, old(State()), a, socket, reply)
    {
      var peerId := Some(a.peerId);
      if !(0 <= a.port < 0x1_0000) || !reply.reachable || !reply.sent {
        // `connect` raises (`OverflowError` for a port out of range), or the write does
        return ConnectFailed;
      }
      outbox := outbox + [(socket, Handshake(nodeId, key))];
      if reply.response.None? {
        return ConnectFailed;
      }
      var response := reply.response.value;
      if response.status != Some("accepted") {
        return ResponseRejected;
      }
      AddKeeps(connections, peerId, socket);
      connections := connections[peerId := socket];
      peers := peers[peerId := Address(a.host, a.port)];
      if response.key.None? {
        // `response['key']` raises after the socket and address were registered
        return ConnectKeyRejected;
      }
      match MakeCipher(response.key.value)
      case Some(peerCipher) =>
        keys := keys[peerId := peerCipher];
        outcome := PeerConnected;
      case None =>
        outcome := ConnectKeyRejected;
    }

    /**
      The loop of `_receive_messages`: read while the node runs, deliver
      each chat message opened with the node's own cipher, and stop at the
      first read that ends the loop or when the reads run out.
     */
    method ReadMessages(frames: seq<Frame>) returns (delivered: seq<string>)
      ensures delivered == (if running then Delivered(cipher, frames) else [])
    {
      delivered := [];
      var i := 0;
      var reading := running;
      while reading && i < |frames|
        invariant 0 <= i <= |frames|
        invariant reading ==> running && delivered + Delivered(cipher, frames[i..]) == Delivered(cipher, frames)
        invariant !reading ==> delivered == (if running then Delivered(cipher, frames) else [])
      {
        assert frames[i..][0] == frames[i] && frames[i..][1..] == frames[i + 1..];
        var frame := frames[i];
        if EndsReceiving(cipher, frame) {
          reading := false;
        } else if frame.env.kind == Some("chat_message") {
          var plaintext := Decrypt(cipher, frame.env.content.value).value;
          delivered := delivered + [plaintext];
        }
        i := i + 1;
      }
      if reading {
        assert frames[i..] == [];
      }
    }

    /**
      `_receive_messages(peer_id, peer_socket)`: the loop, then its exit
      path, which drops `peerId` from `connections` (whatever socket it
      maps to) and closes `socket`; `keys` and `peers` keep their entries.
     */
    method ReceiveMessages(peerId: PeerId, socket: Socket, frames: seq<Frame>) returns (delivered: seq<string>)
      modifies this`connections, this`closed
      ensures delivered == (if running then Delivered(cipher, frames) else [])
      ensures connections == old(connections) - {peerId}
      ensures keys == old(keys) && peers == old(peers)
      ensures closed == old(closed) + {socket}
    {
      delivered := ReadMessages(frames);
      if peerId in connections {
        connections := connections - {peerId};
      }
      closed := closed + {socket};
    }

    /**
      `send_message(peer_id, content)`: seal `content` under the peer's
      own key and write it to the peer's socket; `sent` says whether the
      write succeeds.
     */
    method SendMessage(peerId: string, content: string, sent: bool) returns (outcome: SendOutcome)
      modifies this`outbox
      ensures Some(peerId) !in connections ==> outcome == NotConnected
      ensures Some(peerId) in connections ==>
        outcome == (if Some(peerId) in keys && connections[Some(peerId)] !in closed && sent then Sent else SendFailed)
      ensures outcome == Sent ==>
        outbox == old(outbox) + [(connections[Some(peerId)], ChatMessage(Encrypt(keys[Some(peerId)], content)))]
      ensures outcome != Sent ==> outbox == old(outbox)
      ensures State() == SendEffect(old(State()), closed, peerId, content, sent)
    {
      var p := Some(peerId);
      if p !in connections {
        return NotConnected;
      }
      if p !in keys || connections[p] in closed || !sent {
        // `self.keys[peer_id]` raises for a peer whose key was rejected;
        // `send` raises on a socket the node closed, or when the network fails
        return SendFailed;
      }
      outbox := outbox + [(connections[p], ChatMessage(Encrypt(keys[p], content)))];
      outcome := Sent;
    }

    /**
      `stop`: clear the running flag and close every connected socket and
      the listening socket. The maps keep their entries.
     */
    method Stop()
      modifies this`running, this`closed
      ensures !running
      ensures closed == old(closed) + connections.Values + (if listener.Some? then {listener.value} else {})
    {
      running := false;
      var remaining := connections.Values;
      while remaining != {}
        invariant remaining <= connections.Values
        invariant closed == old(closed) + (connections.Values - remaining)
        invariant !running
        decreases remaining
      {
        var conn :| conn in remaining;
        closed := closed + {conn};
        remaining := remaining - {conn};
      }
      if listener.Some? {
        closed := closed + {listener.value};
      }
    }

    /** One pass of the console loop's `if`/`elif` chain for a command other than `quit`. */
    method Execute(command: Command, network: LineNetwork)
      requires command != Quit
      modifies this`connections, this`keys, this`peers, this`outbox
      ensures !command.Connect? && !command.Message? ==> unchanged(this)
      ensures State() == ExecuteEffect(nodeId, key, old(State()), closed, command, network)
    {
      match command
      case Connect(info) =>
        var _ := ConnectToPeer(info, network.socket, network.reply);
      case Message(peer, text) =>
        var _ := SendMessage(peer, text, network.sent);
      case _ =>
        // a blank line, `list` (which only prints) or an unknown command
    }

    /**
      `_command_interface`: read console lines while the node runs,
      dispatch each, and stop the node when the loop ends, whether on
      `quit`/`exit` or at the end of input. Returns how many lines were
      acted on before the loop ended. Reading a line and dispatching it
      are pure, so the lines are dispatched up front and `RunCommands`
      acts on them in order.
     */
    method CommandInterface(lines: seq<string>, network: seq<LineNetwork>) returns (handled: nat)
      requires |network| == |lines|
      modifies this
      ensures !running
      ensures handled == if old(running) then FirstQuit(Commands(lines)) else 0
      ensures State() ==
        if old(running) then
          var n := FirstQuit(Commands(lines));
          RunEffect(nodeId, key, old(State()), old(closed), Commands(lines)[..n], network[..n])
        else old(State())
      ensures listener == old(listener)
      ensures Keeps(old(connections), connections)
      ensures closed == old(closed) + connections.Values + (if listener.Some? then {listener.value} else {})
    {
      handled := RunCommands(Commands(lines), network);
    }

    /** The console loop on already dispatched lines. */
    method RunCommands(commands: seq<Command>, network: seq<LineNetwork>) returns (handled: nat)
      requires |network| == |commands|
      modifies this
      ensures !running
      ensures handled == if old(running) then FirstQuit(commands) else 0
      ensures State() ==
        if old(running) then RunEffect(nodeId, key, old(State()), old(closed), commands[..FirstQuit(commands)], network[..FirstQuit(commands)])
        else old(State())
      ensures listener == old(listener)
      ensures Keeps(old(connections), connections)
      ensures closed == old(closed) + connections.Values + (if listener.Some? then {listener.value} else {})
    {
      handled := 0;
      ghost var start := State();
      while running && handled < |commands|
        invariant handled <= FirstQuit(commands)
        invariant running == old(running)
        invariant listener == old(listener)
        invariant !old(running) ==> handled == 0
        invariant start == old(State())
        invariant State() == RunEffect(nodeId, key, start, old(closed), commands[..handled], network[..handled])
        invariant closed == old(closed)
        decreases |commands| - handled
      {
        var command := commands[handled];
        if command == Quit {
          break;
        }
        assert handled < FirstQuit(commands);
        RunEffectStep(nodeId, key, start, old(closed), commands, network, handled);
        Execute(command, network[handled]);
        handled := handled + 1;
      }
      assert handled == if old(running) then FirstQuit(commands) else 0;
      Stop();
    }
  }

  /**
    Two nodes meeting: `alice` runs `connect_to_peer(peerInfo)` towards
    `bob`, whose listener accepts on `bobSocket` and answers Alice's
    handshake with its own `handshake_response`; then Alice's
    `send_message` writes `messages`, sealed with the cipher she holds
    for Bob, and Bob's receive loop reads them. Each side ends up holding
    the other's own cipher, so everything Alice sends Bob opens, in order.
   */
  method ConnectPair(alice: Node, bob: Node, peerInfo: string, host: string, port: int,
                     aliceSocket: Socket, bobSocket: Socket, messages: seq<string>)
      returns (delivered: seq<string>)
    requires alice != bob && alice.nodeId != bob.nodeId
    requires ParsePeerInfo(peerInfo) == Some(PeerAddress(bob.nodeId, host, port)) && 0 <= port < 0x1_0000
    requires Some(bob.nodeId) !in alice.connections && Some(alice.nodeId) !in bob.connections
    requires ValidKey(alice.key) && alice.cipher == Cipher(alice.key)
    requires ValidKey(bob.key) && bob.cipher == Cipher(bob.key)
    modifies alice`connections, alice`keys, alice`peers, alice`outbox
    modifies bob`connections, bob`keys, bob`outbox, bob`closed
    // each side registers the other, as its own handshake code does
    ensures alice.connections == old(alice.connections)[Some(bob.nodeId) := aliceSocket]
    ensures alice.peers == old(alice.peers)[Some(bob.nodeId) := Address(host, port)]
    ensures bob.connections == old(bob.connections)[Some(alice.nodeId) := bobSocket]
    ensures Keeps(old(alice.connections), alice.connections) && Keeps(old(bob.connections), bob.connections)
    // each holds the other's own cipher
    ensures alice.keys == old(alice.keys)[Some(bob.nodeId) := bob.cipher]
    ensures bob.keys == old(bob.keys)[Some(alice.nodeId) := alice.cipher]
    // the only writes are the handshake and its answer
    ensures alice.outbox == old(alice.outbox) + [(aliceSocket, Handshake(alice.nodeId, alice.key))]
    ensures bob.outbox == old(bob.outbox) + [(bobSocket, HandshakeResponse(bob.nodeId, bob.key))]
    ensures bob.closed == old(bob.closed)
    // a running responder delivers every message the initiator sealed for it, in order
    ensures delivered == (if old(bob.running) then messages else [])
  {
    var accepted := bob.HandleIncoming(bobSocket, Some(Handshake(alice.nodeId, alice.key)), true);
    assert accepted == PeerRegistered;
    var connected := alice.ConnectToPeer(peerInfo, aliceSocket,
      ConnectReply(true, true, Some(HandshakeResponse(bob.nodeId, bob.key))));
    assert connected == PeerConnected;
    delivered := bob.ReadMessages(ChatFrames(alice.keys[Some(bob.nodeId)], messages));
    DeliveredChatFrames(bob.cipher, messages);
  }
}
