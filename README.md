# P2PNode: a Dafny model of the peer bookkeeping of an encrypted chat node

`P2PNode` (p2p_node.py) is one node of a small peer-to-peer chat. It listens
for incoming TCP connections and dials peers given as `peer_id@host:port`. The
two sides run a JSON handshake in which each tells the other its `node_id` and
its own Fernet key. Afterwards every chat message is encrypted under the
receiving peer's key. A console loop reads `connect`, `msg`, `list` and
`quit`/`exit` commands.

The model keeps the node's state and transitions. Sockets, threads and the
cipher are abstracted away:

- `wrappers.dfy` (`Wrappers`): the `Option` type.
- `pystr.dfy` (`PyStr`): the Python `str` builtins the node relies on:
  - `strip()` with Python's whitespace set;
  - `lower()`;
  - `split(sep)` and `split(sep, maxsplit)`;
  - `int(text)` on decimal text.

  For each one, the properties the node depends on are proved:
  - the split pieces join back to the input;
  - splitting joined pieces gives them back;
  - there is one more piece than there are separators;
  - `int(str(n)) == n`.
- `fernet.dfy` (`Fernet`): a symbolic authenticated cipher. A token records
  the key it was sealed under and its plaintext. Decryption succeeds exactly
  under that key. Key validity is the 44-character url-safe base64 form.
- `wire.dfy` (`Wire`): the JSON envelopes (`handshake`, `handshake_response`,
  `chat_message`) as a datatype. Every field is optional, as with `dict.get`.
  It also defines what one socket read yields.
- `node_input.dfy` (`NodeInput`): the two pure parsers:
  - the `peer_id@host:port` split, proved sound and complete against the
    printed connection info;
  - the console line dispatch (strip, split on single spaces at most twice,
    lower-case the first word, then the `if`/`elif` chain).
- `p2p_node.dfy` (`P2P`): the node as a class. Its fields:
  - `connections` (peer id → socket);
  - `keys` (peer id → the peer's cipher);
  - `peers` (peer id → (host, port));
  - `running`;
  - the listening socket.

  Two more fields record effects: `outbox` (every envelope written, with its
  socket) and `closed` (every socket closed). Each handler is one method:
  - the responder and initiator sides of the handshake;
  - the receive loop and its exit path;
  - `send_message`, `stop` and the console loop.

  Whatever the network does is an argument: whether a connect or write
  succeeds, and what a read returns. Each handler runs as one atomic step.

Peer ids are `Option<string>`: `handshake.get('node_id')` yields `None` when
the field is absent, and the code registers the socket under that key.

Behaviour of the code that the model keeps:

- Outgoing chat is sealed with the recipient's key, `keys[peer_id]`, which
  the peer sent in its handshake (p2p_node.py:143). Incoming chat is opened
  with the node's own cipher (p2p_node.py:128).
- A chat message that does not decrypt, or has no `content`, ends the receive
  loop through the bare `except: break` (p2p_node.py:126-131). It is not
  skipped.
- `connect_to_peer` never closes the socket it opened when the handshake
  fails (p2p_node.py:95-116). The responder leaves the socket open, without an
  answer, when the first message is not a handshake (p2p_node.py:60).
- A handshake without `key` fails at `None.encode()` before the duplicate
  check and is closed (p2p_node.py:62, 82-84).
- `connections` is written before the peer's cipher is built
  (p2p_node.py:76-77, 107-110). A malformed key therefore leaves the peer in
  `connections` (and, on the initiator side, in `peers`) with no new entry in
  `keys`. No receive loop is started, so nothing removes that entry, and later
  handshakes from that peer id are refused as duplicates. A `msg` to it fails
  at `self.keys[peer_id]`, unless `keys` still holds the cipher of an earlier
  session of that peer id: the receive-loop exit keeps `keys`
  (p2p_node.py:133-135). On the initiator side the socket stays open, so the
  message is then sealed under that stale key and written. On the responder
  side the socket was closed (p2p_node.py:84), the write raises and is caught
  (p2p_node.py:149-152), and nothing is written.
- A `connections` entry is never replaced: a peer id already connected is
  refused. `keys` and `peers` entries can be: a new session of a peer id
  whose earlier session ended overwrites its `keys` entry
  (p2p_node.py:77, 110), and a new outgoing connect overwrites its `peers`
  entry (p2p_node.py:108).
- A port outside 0..65535 is accepted by the parser. The connect then fails
  (`OverflowError`), so nothing is registered.
- `int()` skips surrounding whitespace but not the information separators
  U+001C to U+001F, which `strip()` does remove; a port text holding one is
  rejected. It also refuses numerals of more than 4300 digits.

## Model

| member | source | states |
|---|---|---|
| Fernet.Encrypt | p2p_node.py:143 | `cipher.encrypt(content)` seals the plaintext under the cipher's key; what it promises is stated by Fernet.DecryptEncrypt and Fernet.DecryptOtherKey |
| Fernet.Decrypt | p2p_node.py:128 | `cipher.decrypt(token)` opens only tokens sealed under the cipher's own key; what it promises is stated by Fernet.DecryptEncrypt, Fernet.DecryptOtherKey and Fernet.DecryptAuthentic |
| Fernet.MakeCipher | p2p_node.py:77 | `Fernet(key)` succeeds exactly on a well-formed key, and the cipher holds that key |
| Fernet.DecryptEncrypt | p2p_node.py:143 | a message sealed under a key opens under the same key to the same plaintext |
| Fernet.DecryptOtherKey | p2p_node.py:128 | a token sealed under another key never opens under the node's cipher |
| Fernet.DecryptAuthentic | p2p_node.py:128 | whatever opens under a key was sealed under that key with that plaintext |
| PyStr.StripLeft | p2p_node.py:162 | the result is no longer than the input and starts with a non-space; it is empty exactly when the input is all whitespace |
| PyStr.StripRight | p2p_node.py:162 | the result is no longer than the input, keeps its first character and ends with a non-space; empty exactly when the input is all whitespace |
| PyStr.StripLeftSuffix | p2p_node.py:162 | the left-stripped text is a suffix of the input, and everything dropped is whitespace |
| PyStr.StripRightPrefix | p2p_node.py:162 | the right-stripped text is a prefix of the input, and everything dropped is whitespace |
| PyStr.Strip | p2p_node.py:162 | a stripped line is empty exactly when the line is all whitespace, and otherwise neither begins nor ends with whitespace |
| PyStr.StripUnchanged | p2p_node.py:162 | text with no whitespace at either end is unchanged by strip |
| PyStr.StripKeepsOrSpace | p2p_node.py:162 | every non-space character of the input lies within the stripped text |
| PyStr.StripLeadingSpace | p2p_node.py:162 | leading whitespace does not change the stripped line |
| PyStr.LowerChar | p2p_node.py:166 | lower-casing a character leaves no ASCII capital, changes exactly the capitals, and turns each into a small letter |
| PyStr.Lower | p2p_node.py:166 | `lower()` keeps the length and lower-cases each character as PyStr.LowerChar does |
| PyStr.Split | p2p_node.py:88-89 | `split(sep)` yields at least one piece, and no piece contains the separator |
| PyStr.SplitJoinsBack | p2p_node.py:88-89 | joining the pieces of `split(sep)` on the separator gives back the input |
| PyStr.SplitJoin | p2p_node.py:88-89 | separator-free pieces joined on the separator split back into exactly those pieces |
| PyStr.SplitCount | p2p_node.py:88-89 | `split(sep)` yields one piece more than there are separators, so the unpacking needs exactly one separator |
| PyStr.SplitTwo | p2p_node.py:88-89 | two separator-free texts joined by the separator split into those two |
| PyStr.SplitAtMost | p2p_node.py:165 | `split(sep, n)` yields 1 to n+1 pieces; all but the last are separator-free, and so is the last when fewer than n splits were made |
| PyStr.SplitAtMostJoinsBack | p2p_node.py:165 | joining the pieces of `split(sep, n)` on the separator gives back the input |
| PyStr.SplitAtMostCons | p2p_node.py:165 | a separator-free first word followed by the separator is split off as the first piece, and the rest is split with one fewer split |
| PyStr.ParseInt | p2p_node.py:90 | `int(text)` succeeds only on text made of digits, underscores, a sign and whitespace other than U+001C to U+001F |
| PyStr.ParseSignedNumeral | p2p_node.py:90 | stripped text parses only when it is a numeral, possibly after one sign, within the 4300-digit limit |
| PyStr.ParseIntChars | p2p_node.py:90 | whitespace other than U+001C to U+001F around an optionally signed numeral adds only characters `int()` accepts |
| PyStr.NatToString | p2p_node.py:36 | the decimal form of a natural number is a non-empty string of digits |
| PyStr.ParseIntNatToString | p2p_node.py:36 | `int(str(n)) == n` for every natural number of at most 4300 digits |
| PyStr.ParseIntUnsigned | p2p_node.py:90 | an unsigned numeral within the digit limit parses to its value |
| NodeInput.ParsePeerInfo | p2p_node.py:88-90 | a parsed address has no `@` in its peer id, and neither `@` nor `:` in its host |
| NodeInput.ParsePeerInfoSound | p2p_node.py:88-90 | a parsed address is exactly `peer_id@host:port_text`, where `int(port_text)` is its port |
| NodeInput.ParsePeerInfoComplete | p2p_node.py:88-90 | every `peer_id@host:port_text` with separator-free parts and an integer port text parses to those parts |
| NodeInput.IntTextHasNoSeparators | p2p_node.py:90 | text `int()` accepts holds neither `@` nor `:` |
| NodeInput.FormatPeerInfo | p2p_node.py:36 | the connection info `node_id@host:port` a node prints; its round trip is stated by NodeInput.ParseFormattedPeerInfo |
| NodeInput.ParseFormattedPeerInfo | p2p_node.py:36 | the connection info a node prints parses back to its id, host and port (a port of at most 4300 digits) |
| NodeInput.ParsePeerInfoRejects | p2p_node.py:88-89 | text without exactly one `@`, or whose address part lacks exactly one `:`, is refused |
| NodeInput.ParsePeerInfoRejectsAt | p2p_node.py:88 | a peer id that contains `@` cannot be reached through its address text |
| NodeInput.Dispatch | p2p_node.py:162-176 | a line is blank exactly when it is all whitespace; a `connect` argument is a single word; a `msg` peer id is a single word and its text is non-empty and not space-terminated |
| NodeInput.Decide | p2p_node.py:165-176 | the same facts for an already stripped line, which is blank exactly when empty |
| NodeInput.MessageArguments | p2p_node.py:172-173 | the third piece of a stripped `msg` line is non-empty and does not end in whitespace |
| NodeInput.KeywordHasNoSpace | p2p_node.py:166 | a word whose lower-case form is a command keyword contains no whitespace |
| NodeInput.FirstWord | p2p_node.py:162-166 | a keyword followed by nothing or a space-led rest is the first piece of the stripped, split line |
| NodeInput.DispatchQuit | p2p_node.py:168-169 | `quit` or `exit`, in any letter case and with anything after a space, ends the console loop |
| NodeInput.DispatchList | p2p_node.py:174 | `list`, in any letter case and with anything after a space, lists the peers |
| NodeInput.DispatchConnect | p2p_node.py:170-171 | `connect <peer_info>` passes the single word `peer_info` to the connect operation |
| NodeInput.DispatchMessage | p2p_node.py:172-173 | `msg <peer_id> <text>` sends the whole rest of the line, inner spaces included, to `peer_id` |
| NodeInput.SplitAtMostThree | p2p_node.py:165 | `w peer rest` splits into exactly `[w, peer, rest]` with at most two splits |
| NodeInput.DispatchBareKeyword | p2p_node.py:170-173 | `connect` or `msg` without arguments is ignored |
| NodeInput.DispatchMessageWithoutText | p2p_node.py:172 | `msg <peer_id>` without a message is ignored |
| NodeInput.DispatchIgnoresLeadingSpace | p2p_node.py:162 | leading whitespace does not change what a line asks for |
| Wire.Handshake | p2p_node.py:98-102 | the initiator's opening envelope: type `handshake`, its node id and its own key; what a responder does with it is stated by P2P.Node.HandleIncoming and P2P.ConnectPair |
| Wire.HandshakeResponse | p2p_node.py:68-73 | the responder's reply: type `handshake_response`, its node id, status `accepted` and its own key; what an initiator does with it is stated by P2P.Node.ConnectToPeer and P2P.ConnectPair |
| Wire.ChatMessage | p2p_node.py:144-148 | a chat envelope carrying only the token; what a receiver does with it is stated by P2P.DeliveredChatFrames |
| P2P.ResponderOutcome | p2p_node.py:56-84 | the reply is sent and the socket registered exactly for a readable keyed handshake from an unconnected peer id whose reply write succeeds; a keyed handshake from a connected peer id is refused whatever the network does; registration with a key only for a well-formed key |
| P2P.InitiatorOutcome | p2p_node.py:95-113 | the peer is registered exactly when the port is in range, connect and write succeed and the answer says `accepted`; its key is kept only when well-formed |
| P2P.InitiateEffect | p2p_node.py:95-113 | the handshake is written exactly when the port is in range and connect and write succeed; `connections` and `peers` gain the peer as (socket) and (host, port) exactly on the outcomes that register it; `keys` gains its cipher only when the answer's key is well formed |
| P2P.ConnectEffect | p2p_node.py:86-116 | unparsable text, the node's own id and a connected peer change nothing; no `connections` entry is dropped or replaced; a key is stored only along with a new connection; the only write is the handshake |
| P2P.SendEffect | p2p_node.py:137-152 | the maps never change; nothing is written to an unconnected peer; a message is written exactly when the peer is connected, has a key, its socket is not one the node closed, and the write succeeds, and it is the content sealed under `keys[peer_id]` on that peer's socket |
| P2P.ExecuteEffect | p2p_node.py:168-176 | blank, `list` and unknown lines change nothing; `msg` changes no map; no line drops or replaces a `connections` entry; writes are only appended |
| P2P.RunEffect | p2p_node.py:160-176 | over any sequence of lines `connections` entries accumulate, writes are only appended, and lines without `connect` leave all three maps as they were |
| P2P.RunEffectStep | p2p_node.py:160-176 | acting on one more line applies its effect to the state the earlier lines left |
| P2P.Commands | p2p_node.py:160-166 | one command per console line |
| P2P.FirstQuit | p2p_node.py:160-169 | the console acts on the commands before the first `quit`/`exit`, or on all of them if there is none |
| P2P.FirstQuitAt | p2p_node.py:168-169 | with a `quit`/`exit` after lines that are not, the loop acts on exactly those earlier lines |
| P2P.FirstQuitFrom | p2p_node.py:160-169 | the first `Quit` at or after a position, or the end |
| P2P.EndsReceiving | p2p_node.py:121-131 | the reads that end a receive loop: an end of stream, a failed read, and a chat message with no content or one that does not open; their effect is stated by P2P.DeliveredStopsAt |
| P2P.Delivered | p2p_node.py:119-131 | a receive loop delivers at most one plaintext per read |
| P2P.DeliveredSealedForReceiver | p2p_node.py:126-128 | every delivered plaintext arrived in a chat message sealed under the receiver's own key |
| P2P.ChatFrames | p2p_node.py:143-149 | one chat message per plaintext sent |
| P2P.DeliveredChatFrames | p2p_node.py:126-149 | chat messages sealed under the receiver's key are all delivered, in order |
| P2P.DeliveredStopsAt | p2p_node.py:121-131 | nothing after an end of stream, a failed read, or a chat message that does not open is delivered |
| P2P.Node.constructor | p2p_node.py:10-20 | a new node has empty maps, is not running, and its cipher is built from its own key |
| P2P.Node.Start | p2p_node.py:27-44 | the listening socket is recorded; if it binds the node runs, otherwise it is stopped and its sockets closed; the maps do not change |
| P2P.Node.HandleIncoming | p2p_node.py:55-84 | a duplicate peer id is closed with nothing sent and no map changed; a fresh peer gets `handshake_response` with the node's id, `accepted` and its own key, then is in `connections` and, for a well-formed key, in `keys`; `peers` is never touched and no `connections` entry is replaced, while a fresh peer's `keys` entry overwrites any stale one |
| P2P.Node.ConnectToPeer | p2p_node.py:86-116 | an unparsable address or the node itself or a connected peer changes nothing and writes nothing; otherwise only an `accepted` answer registers the peer in `connections`, `peers` as (host, port) and, for a well-formed key, `keys`; the only write is the handshake; the new state is `ConnectEffect` of the old |
| P2P.Node.Initiate | p2p_node.py:95-113 | the socket part of a connect: the outcome is `InitiatorOutcome` and the new state is `InitiateEffect` of the old |
| P2P.Node.ReadMessages | p2p_node.py:119-131 | a running node's loop delivers exactly `Delivered` of the reads; a stopped node's loop delivers nothing |
| P2P.Node.ReceiveMessages | p2p_node.py:118-135 | when the loop ends the peer id leaves `connections`, its socket is closed, and `keys` and `peers` keep their entries |
| P2P.Node.SendMessage | p2p_node.py:137-152 | to an unconnected peer nothing is written; otherwise the one write is a chat message sealed under `keys[peer_id]` on that peer's socket, and a missing key, a socket the node already closed, or a failed write sends nothing; the new state is `SendEffect` of the old |
| P2P.Node.Stop | p2p_node.py:182-195 | the node stops, and every connected socket and the listening socket are closed; the maps keep their entries |
| P2P.Node.Execute | p2p_node.py:168-176 | `list`, blank and unknown commands change nothing; otherwise the new state is `ExecuteEffect` of the old: a connect as `ConnectEffect`, a `msg` as `SendEffect` |
| P2P.Node.CommandInterface | p2p_node.py:154-180 | a running node acts on exactly the lines before the first `quit`/`exit` (or all lines), in order, its state becoming `RunEffect` of them; a stopped node acts on none and keeps its state; either way it ends stopped with all its sockets closed and every earlier `connections` entry kept |
| P2P.Node.RunCommands | p2p_node.py:160-180 | the same loop over already dispatched commands |
| P2P.ConnectPair | p2p_node.py:55-152 | when one node connects to another that answers its handshake, each registers the other's socket, the initiator records the address, and each holds the other's own cipher; the only writes are the handshake and its answer, no socket is closed, no other field changes (the responder's `running` included), and a running responder's receive loop delivers every message the initiator then seals for it, all of them and in order |

## Left out

- Sockets, `bind`/`listen`/`accept`, `_find_free_port` and the accept loop `_listen_for_connections` are OS I/O. A socket is an abstract handle. Whether a connect, write or bind succeeds, and what a read returns, are arguments.
- Threads: each handler is one atomic step. Interleavings of a membership check and an insertion in another thread are not modelled.
- P2P.Node.Start records the listening socket and the running flag. The console loop that `start` then runs is the separate P2P.Node.CommandInterface, and the threads it starts are not modelled.
- JSON encoding and decoding, UTF-8, and the single fixed-size `recv(1024)`/`recv(2048)` framing are library and transport behaviour. A read is an envelope, an end of stream, or a failure. An envelope field holding a non-string JSON value is not modelled.
- Fernet internals (key generation, AES and HMAC, the lenient base64 decoding of keys) belong to a foreign library. The cipher is symbolic, and its round trip and authenticity hold by construction of the model rather than by proof about Fernet.
- Console printing, the `list` output, `datetime.now()` timestamps (left out of `chat_message`) and `input()` are UI and wall clock. The console lines are a sequence, and its end stands for `EOFError`/`KeyboardInterrupt`.
- P2P.Node.ReadMessages: a sequence of reads that runs out before the loop ends is treated like an end of stream.
- PyStr.Lower covers ASCII letters only. The one non-ASCII character whose lower case is an ASCII letter is KELVIN SIGN (to `k`), and no command word contains `k`, so no dispatch decision depends on this.
- PyStr.ParseInt accepts ASCII digits only, not the other Unicode decimal digits Python's `int()` accepts. Its 4300-digit limit is the default since Python 3.11; a limit changed with `sys.set_int_max_str_digits` or `PYTHONINTMAXSTRDIGITS`, and older versions without it, are not modelled.
- NodeInput.FormatPeerInfo does not model that `str()` also refuses a number of more than 4300 digits; a bound port never has that many.
- Socket handles stand for distinct socket objects: a socket handed to a handshake is taken to be one the node has not closed before. The model does not enforce this freshness; reusing a closed handle makes writes on it fail.
- P2P.ConnectPair composes the two handshake sides in one order: the responder registers first, then the initiator reads its answer. Other interleavings of the two threads are not modelled.
- `main` and p2p_launcher.py (argument handling, launching terminal windows) are process plumbing, not node state.
