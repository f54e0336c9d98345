/**
  The two pieces of text the node reads from its console: a peer address
  `peer_id@host:port` and a command line.
 */
module NodeInput {

  import opened Wrappers
  import opened PyStr

  datatype PeerAddress = PeerAddress(peerId: string, host: string, port: int)

  /**
    `peer_id, address = info.split('@')`, `host, port = address.split(':')`,
    `port = int(port)`: each unpacking demands exactly two pieces, and
    `None` stands for the `ValueError` any of the three steps raises.
   */
  function ParsePeerInfo(info: string): (r: Option<PeerAddress>)
    ensures r.Some? ==> '@' !in r.value.peerId && '@' !in r.value.host && ':' !in r.value.host
  {
    var parts := Split(info, '@');
    if |parts| != 2 then None
    else
      var address := Split(parts[1], ':');
      if |address| != 2 then None
      else
        match ParseInt(address[1])
        case None => None
        case Some(port) =>
          SplitJoinsBack(parts[1], ':');
          JoinTwo(address, ':');
          Some(PeerAddress(parts[0], address[0], port))
  }

  /** The connection info a node prints for itself: `node_id@host:port`. */
  function FormatPeerInfo(a: PeerAddress): string
    requires a.port >= 0
  {
    a.peerId + "@" + a.host + ":" + NatToString(a.port)
  }

  /** A parsed address is exactly `peer_id@host:port_text`, with `int(port_text)` its port. */
  lemma ParsePeerInfoSound(info: string, a: PeerAddress)
    requires ParsePeerInfo(info) == Some(a)
    ensures exists portText :: info == a.peerId + "@" + a.host + ":" + portText && ParseInt(portText) == Some(a.port)
  {
    var parts := Split(info, '@');
    assert |parts| == 2;
    var address := Split(parts[1], ':');
    assert |address| == 2;
    var portText := address[1];
    assert a == PeerAddress(parts[0], address[0], a.port) && ParseInt(portText) == Some(a.port);
    SplitJoinsBack(info, '@');
    SplitJoinsBack(parts[1], ':');
    JoinTwo(parts, '@');
    JoinTwo(address, ':');
    assert info == parts[0] + ['@'] + (address[0] + [':'] + portText);
    AddressText(a.peerId, a.host, portText);
  }

  lemma AddressText(peerId: string, host: string, portText: string)
    ensures peerId + "@" + host + ":" + portText == peerId + ['@'] + (host + [':'] + portText)
  {
  }

  /**
    Every `peer_id@host:port_text` whose peer id holds no `@`, whose host
    holds neither `@` nor `:`, and whose port text `int()` accepts, parses
    to those parts.
   */
  lemma ParsePeerInfoComplete(peerId: string, host: string, portText: string, port: int)
    requires '@' !in peerId && '@' !in host && ':' !in host
    requires ParseInt(portText) == Some(port)
    ensures ParsePeerInfo(peerId + "@" + host + ":" + portText) == Some(PeerAddress(peerId, host, port))
  {
    IntTextHasNoSeparators(portText);
    var address := host + [':'] + portText;
    var info := peerId + ['@'] + address;
    AddressText(peerId, host, portText);
    SplitTwo(peerId, '@', address);
    SplitTwo(host, ':', portText);
    assert Split(info, '@') == [peerId, address];
    assert Split(address, ':') == [host, portText];
    assert ParsePeerInfo(info) == Some(PeerAddress(peerId, host, port));
  }

  lemma IntTextHasNoSeparators(t: string)
    requires ParseInt(t).Some?
    ensures '@' !in t && ':' !in t
  {
    forall i | 0 <= i < |t|
      ensures t[i] != '@' && t[i] != ':'
    {
      assert IsIntTextChar(t[i]);
    }
  }

  /** The connection info a node prints parses back to its id, host and port. */
  lemma ParseFormattedPeerInfo(a: PeerAddress)
    requires '@' !in a.peerId && '@' !in a.host && ':' !in a.host
    requires a.port >= 0 && |NatToString(a.port)| <= MaxStrDigits
    ensures ParsePeerInfo(FormatPeerInfo(a)) == Some(a)
  {
    ParseIntNatToString(a.port);
    ParsePeerInfoComplete(a.peerId, a.host, NatToString(a.port), a.port);
  }

  /** Text without exactly one `@`, or whose address part lacks exactly one `:`, is refused. */
  lemma ParsePeerInfoRejects(info: string)
    requires Count(info, '@') != 1 || Count(Split(info, '@')[|Split(info, '@')| - 1], ':') != 1
    ensures ParsePeerInfo(info).None?
  {
    SplitCount(info, '@');
    SplitCount(Split(info, '@')[|Split(info, '@')| - 1], ':');
  }

  /** A peer id holding an `@` cannot be connected to by its address. */
  lemma ParsePeerInfoRejectsAt(peerId: string, address: string)
    requires '@' in peerId
    ensures ParsePeerInfo(peerId + "@" + address).None?
  {
    CountPositive(peerId, '@');
    CountAppend(peerId, "@" + address, '@');
    CountAppend("@", address, '@');
    assert peerId + "@" + address == peerId + ("@" + address);
    ParsePeerInfoRejects(peerId + "@" + address);
  }

  /** What one console line asks the node to do. */
  datatype Command =
    | Blank                                  // nothing but whitespace: read the next line
    | Quit                                   // `quit` or `exit`
    | Connect(peerInfo: string)              // `connect <peer_id@host:port>`
    | Message(peerId: string, text: string)  // `msg <peer_id> <message>`
    | ListPeers                              // `list`
    | Unknown                                // anything else: ignored

  /**
    `command = line.strip()`, then the decision of the console loop on
    the stripped line.
   */
  function Dispatch(line: string): (c: Command)
    ensures c == Blank <==> AllSpace(line)
    ensures c.Connect? ==> ' ' !in c.peerInfo
    ensures c.Message? ==> ' ' !in c.peerId && c.text != [] && !IsSpace(c.text[|c.text| - 1])
  {
    Decide(Strip(line))
  }

  /**
    `parts = command.split(' ', 2)`, `cmd = parts[0].lower()`, then the
    `if`/`elif` chain: `quit`/`exit`, `connect` with at least two parts,
    `msg` with three, `list`.
   */
  function Decide(command: string): (c: Command)
    requires command == [] || (!IsSpace(command[0]) && !IsSpace(command[|command| - 1]))
    ensures c == Blank <==> command == []
    ensures c.Connect? ==> ' ' !in c.peerInfo
    ensures c.Message? ==> ' ' !in c.peerId && c.text != [] && !IsSpace(c.text[|c.text| - 1])
  {
    if command == [] then Blank
    else
      var parts := SplitAtMost(command, ' ', 2);
      SecondPieceHasNoSep(command, ' ');
      var cmd := Lower(parts[0]);
      if cmd == "quit" || cmd == "exit" then Quit
      else if cmd == "connect" && |parts| >= 2 then Connect(parts[1])
      else if cmd == "msg" && |parts| >= 3 then
        SplitAtMostJoinsBack(command, ' ', 2);
        MessageArguments(command, parts);
        Message(parts[1], parts[2])
      else if cmd == "list" then ListPeers
      else Unknown
  }

  /** With at most two splits, the second piece is free of the separator. */
  lemma SecondPieceHasNoSep(s: string, sep: char)
    ensures |SplitAtMost(s, sep, 2)| >= 2 ==> sep !in SplitAtMost(s, sep, 2)[1]
  {
  }

  /** The message of `msg` is the non-empty rest of a line that does not end in whitespace. */
  lemma MessageArguments(command: string, parts: seq<string>)
    requires command != [] && !IsSpace(command[|command| - 1])
    requires |parts| == 3 && Join(parts, ' ') == command
    ensures parts[2] != [] && !IsSpace(parts[2][|parts[2]| - 1])
  {
    assert parts[1..][1..] == parts[2..];
    assert Join(parts[2..], ' ') == parts[2];
    var prefix := parts[0] + [' '] + parts[1] + [' '];
    assert command == prefix + parts[2];
    assert prefix[|prefix| - 1] == ' ';
    assert parts[2] != [];
    assert command[|command| - 1] == parts[2][|parts[2]| - 1];
  }

  /** A word whose lower-case form is a command keyword: no whitespace in it, at either end or inside. */
  predicate IsKeyword(w: string, keyword: string) {
    Lower(w) == keyword && keyword != [] && forall i :: 0 <= i < |keyword| ==> !IsSpace(keyword[i])
  }

  lemma KeywordHasNoSpace(w: string, keyword: string)
    requires IsKeyword(w, keyword)
    ensures w != [] && ' ' !in w && !IsSpace(w[0]) && !IsSpace(w[|w| - 1])
  {
    assert forall i :: 0 <= i < |w| ==> Lower(w)[i] == LowerChar(w[i]);
    assert forall i :: 0 <= i < |w| ==> !IsSpace(w[i]);
  }

  /** A line made of a keyword and then nothing or a space-led rest has that keyword as its first word. */
  lemma FirstWord(w: string, keyword: string, rest: string)
    requires IsKeyword(w, keyword)
    requires rest == [] || rest[0] == ' '
    ensures Strip(w + rest) != []
    ensures SplitAtMost(Strip(w + rest), ' ', 2)[0] == w
  {
    KeywordHasNoSpace(w, keyword);
    StripLeftUnchanged(w + rest);
    StripRightAppend(w, rest);
    var tail := StripRight(rest);
    assert Strip(w + rest) == w + tail;
    if tail == [] {
      assert w + tail == w;
      SplitAtMostNoSep(w, ' ', 2);
    } else {
      assert tail[0] == ' ';
      assert w + tail == w + [' '] + tail[1..];
      SplitAtMostCons(w, ' ', tail[1..], 2);
    }
  }

  /** `quit` and `exit`, in any letter case and followed by anything after a space, end the console loop. */
  lemma DispatchQuit(w: string, rest: string)
    requires IsKeyword(w, "quit") || IsKeyword(w, "exit")
    requires rest == [] || rest[0] == ' '
    ensures Dispatch(w + rest) == Quit
  {
    if IsKeyword(w, "quit") {
      FirstWord(w, "quit", rest);
    } else {
      FirstWord(w, "exit", rest);
    }
  }

  /** `list` followed by nothing or a space-led rest lists the peers. */
  lemma DispatchList(w: string, rest: string)
    requires IsKeyword(w, "list")
    requires rest == [] || rest[0] == ' '
    ensures Dispatch(w + rest) == ListPeers
  {
    FirstWord(w, "list", rest);
  }

  /** `connect <peer_info>` hands the single word `peer_info` to the connect operation. */
  lemma DispatchConnect(w: string, info: string)
    requires IsKeyword(w, "connect")
    requires info != [] && ' ' !in info && !IsSpace(info[|info| - 1])
    ensures Dispatch(w + " " + info) == Connect(info)
  {
    KeywordHasNoSpace(w, "connect");
    var line := w + " " + info;
    assert line == w + [' '] + info;
    StripUnchanged(line);
    SplitAtMostCons(w, ' ', info, 2);
    SplitAtMostNoSep(info, ' ', 1);
    assert SplitAtMost(line, ' ', 2) == [w, info];
    assert Dispatch(line) == Decide(line);
  }

  /** `msg <peer_id> <message>` sends the whole rest of the line, spaces included, to `peer_id`. */
  lemma DispatchMessage(w: string, peerId: string, text: string)
    requires IsKeyword(w, "msg")
    requires ' ' !in peerId
    requires text != [] && !IsSpace(text[|text| - 1])
    ensures Dispatch(w + " " + peerId + " " + text) == Message(peerId, text)
  {
    KeywordHasNoSpace(w, "msg");
    var line := w + " " + peerId + " " + text;
    assert line == w + [' '] + (peerId + [' '] + text);
    StripUnchanged(line);
    SplitAtMostThree(w, peerId, text);
  }

  lemma SplitAtMostThree(w: string, peerId: string, text: string)
    requires ' ' !in w && ' ' !in peerId
    ensures SplitAtMost(w + [' '] + (peerId + [' '] + text), ' ', 2) == [w, peerId, text]
  {
    SplitAtMostCons(w, ' ', peerId + [' '] + text, 2);
    SplitAtMostCons(peerId, ' ', text, 1);
  }

  /** `connect` and `msg` alone are ignored: each needs its arguments. */
  lemma DispatchBareKeyword(w: string)
    requires IsKeyword(w, "connect") || IsKeyword(w, "msg")
    ensures Dispatch(w) == Unknown
  {
    var keyword := if IsKeyword(w, "connect") then "connect" else "msg";
    KeywordHasNoSpace(w, keyword);
    StripUnchanged(w);
    SplitAtMostNoSep(w, ' ', 2);
  }

  /** `msg <peer_id>` without a message is ignored. */
  lemma DispatchMessageWithoutText(w: string, peerId: string)
    requires IsKeyword(w, "msg")
    requires peerId != [] && ' ' !in peerId && !IsSpace(peerId[|peerId| - 1])
    ensures Dispatch(w + " " + peerId) == Unknown
  {
    KeywordHasNoSpace(w, "msg");
    var line := w + " " + peerId;
    assert line == w + [' '] + peerId;
    StripUnchanged(line);
    SplitAtMostCons(w, ' ', peerId, 2);
    SplitAtMostNoSep(peerId, ' ', 1);
  }

  /** The line is stripped first: leading whitespace changes nothing. */
  lemma DispatchIgnoresLeadingSpace(ws: string, line: string)
    requires AllSpace(ws)
    ensures Dispatch(ws + line) == Dispatch(line)
  {
    StripLeadingSpace(ws, line);
  }
}
