/** websocket_server.py's WebsocketServer (the registry of connected handlers
    and the callbacks it fires) and WebSocketHandler (one connection: the
    handshake, then one frame after another until the connection ends).
    The socket is modelled by the bytes the client sends and by the list of
    byte strings the handler passes to send; the callbacks new_client,
    client_left and message_received are recorded as events. */
module WsServer {
  import opened PyText
  import opened Utf8
  import opened Bits
  import opened WsFrame
  import WsHandshake
  import opened Sorting

  // ---------------------------------------------------------------- values

  /** client_address: the peer's host (its IP address as a number) and port.
      The server only passes it on to the callbacks. */
  datatype Address = Address(host: nat, port: nat)

  /** The dict handler_to_client builds: {'id', 'handler', 'address'}. */
  datatype Client = Client(id: nat, handler: WebSocketHandler, address: Address)

  /** The callbacks the server calls, in the order it calls them. */
  datatype Event =
    | Connected(client: Client)               // new_client
    | Left(client: Client)                    // client_left
    | Received(client: Client, message: string)  // message_received

  /** The exceptions that end handle(); finish() still runs after each. */
  datatype Failure =
    | RequestNotUtf8         // recv(1024).decode() raises UnicodeDecodeError
    | UnknownOpcodeLogged    // the warning concatenates str and int: TypeError
    | ExtendedLengthShort    // struct.unpack on fewer bytes: struct.error
    | NoClientLeftMethod     // _message_received_ calls the undefined _client_left: AttributeError
    | MessageTooBig          // send_text raises "Message is too big"

  /** What send_text is given: a str, a bytes object, or anything else. */
  datatype Message = Text(text: string) | Bytes(bytes: seq<byte>) | Other

  /** How send_text ends: the frame it sent, False, or the exception. */
  datatype Send = Sent(frame: seq<byte>) | Refused | TooBig

  // ---------------------------------------------------------------- send_text

  /** The UTF-8 payload send_text sends, or None where it returns False: a
      bytes message that is not UTF-8 or decodes to the falsy '', and any
      message that is neither str nor bytes. */
  function Payload(m: Message): Option<seq<byte>>
  {
    match m
    case Text(s) => Some(Encode(s))
    case Bytes(b) =>
      (match Decode(b)
       case None => None
       case Some(t) => if t == [] then None else Some(Encode(t)))
    case Other => None
  }

  function Outgoing(m: Message, opcode: nat): (r: Send)
    requires opcode < 16
  {
    match Payload(m)
    case None => Refused
    case Some(p) =>
      match ServerFrame(opcode, p)
      case None => TooBig
      case Some(f) => Sent(f)
  }

  /** send_text refuses exactly the non-str, non-bytes messages and the bytes
      that are not UTF-8 or are empty; a str is always encoded. */
  lemma OutgoingRefused(m: Message, opcode: nat)
    requires opcode < 16
    ensures Outgoing(m, opcode).Refused? <==> m.Other? || (m.Bytes? && (Decode(m.bytes).None? || m.bytes == []))
  {
    if m.Bytes? && Decode(m.bytes).Some? {
      EncodeDecode(m.bytes);
    }
  }

  /** A valid bytes message is sent as it is: decoding and encoding again
      gives the same bytes. */
  lemma BytesSentUnchanged(b: seq<byte>)
    requires Decode(b).Some? && b != []
    ensures Payload(Bytes(b)) == Some(b)
  {
    EncodeDecode(b);
  }

  /** The frame sent: FIN and the opcode, no mask bit, a length field that
      gives back the payload length, and the payload unmasked; it is sent
      exactly when the payload is shorter than 2^64 bytes. */
  lemma OutgoingFrame(m: Message, opcode: nat)
    requires opcode < 16 && Payload(m).Some?
    ensures var p := Payload(m).value;
      Outgoing(m, opcode).Sent? <==> |p| < LIMIT64
    ensures var p := Payload(m).value; Outgoing(m, opcode).Sent? ==>
      var f := Outgoing(m, opcode).frame;
      && OpcodeOf(f[0]) == opcode && HighBitOf(f[0]) == FIN && HighBitOf(f[1]) == 0
      && ReadLength(f, 2, LengthOf(f[1])) == Some((|p|, |f| - |p|))
      && f[|f| - |p|..] == p
  {
    var p := Payload(m).value;
    if |p| < LIMIT64 {
      ServerFrameLayout(opcode, p);
    }
  }

  // ---------------------------------------------------------------- frames received

  /** The effect of one frame on the connection: frames sent back, callbacks
      fired, whether keep_alive was cleared, and the exception raised. */
  datatype Reaction = Reaction(sent: seq<seq<byte>>, events: seq<Event>, closed: bool, failure: Option<Failure>)

  /** What read_next_message does with a frame, given what handler_to_client
      returns for the handler (None where it raises KeyError). */
  function React(f: Frame, client: Option<Client>): (r: Reaction)
    ensures r.closed ==> r.failure.None?
  {
    match f
    case ConnectionClosed => Reaction([], [], true, None)
    case CloseRequested => Reaction([], [], true, None)
    case NotMasked => Reaction([], [], true, None)
    case Unsupported(_) => Reaction([], [], false, None)
    case UnknownOpcode(_) => Reaction([], [], false, Some(UnknownOpcodeLogged))
    case LengthCutShort => Reaction([], [], false, Some(ExtendedLengthShort))
    case Data(opcode, payload) => ReactData(opcode, Latin1(payload), client)
  }

  /** The handler a text, ping or pong frame goes to, given the str the payload
      became: message_received for text (through handler_to_client), a pong
      sent back for ping, nothing for pong. */
  function ReactData(opcode: nat, msg: string, client: Option<Client>): (r: Reaction)
    ensures !r.closed
  {
    if opcode == OPCODE_TEXT then
      if client.Some? then Reaction([], [Received(client.value, msg)], false, None)
      else Reaction([], [], false, Some(NoClientLeftMethod))
    else if opcode == OPCODE_PING then
      match ServerFrame(OPCODE_PONG, Encode(msg))
      case Some(pong) => Reaction([pong], [], false, None)
      case None => Reaction([], [], false, Some(MessageTooBig))
    else Reaction([], [], false, None)
  }

  /** handle()'s loop over the frames from position pos on: each frame's
      reaction, until one clears keep_alive or raises. */
  function Converse(s: seq<byte>, pos: nat, client: Option<Client>): (r: Reaction)
    requires pos <= |s|
    ensures r.closed != r.failure.Some?
    decreases |s| - pos
  {
    var now := React(ReadFrame(s, pos).0, client);
    if now.closed || now.failure.Some? then now
    else
      After(now.sent, now.events, Converse(s, ReadFrame(s, pos).1, client))
  }

  /** The reaction r, preceded by the frames sent and the events fired earlier. */
  function After(sent: seq<seq<byte>>, events: seq<Event>, r: Reaction): Reaction
  {
    Reaction(sent + r.sent, events + r.events, r.closed, r.failure)
  }

  lemma ConcatEmpty<T>(a: seq<T>)
    ensures [] + a == a
  {
  }

  lemma ConcatAssoc<T>(a: seq<T>, b: seq<T>, c: seq<T>)
    ensures a + (b + c) == a + b + c
  {
  }

  /** The conversation after some earlier output, one frame further on: a frame
      that ends it is the last, any other is followed by the rest. */
  lemma ConverseStep(s: seq<byte>, pos: nat, client: Option<Client>, sent: seq<seq<byte>>, events: seq<Event>,
      now: Reaction, next: nat)
    requires pos <= |s| && now == React(ReadFrame(s, pos).0, client) && next == ReadFrame(s, pos).1
    ensures now.closed || now.failure.Some? ==>
      After(sent, events, Converse(s, pos, client)) == Reaction(sent + now.sent, events + now.events, now.closed, now.failure)
    ensures !now.closed && now.failure.None? ==>
      After(sent, events, Converse(s, pos, client)) == After(sent + now.sent, events + now.events, Converse(s, next, client))
  {
    if !now.closed && now.failure.None? {
      var rest := Converse(s, next, client);
      assert sent + (now.sent + rest.sent) == sent + now.sent + rest.sent;
      assert events + (now.events + rest.events) == events + now.events + rest.events;
    }
  }

  /** A ping is answered by one pong whose payload is the UTF-8 encoding of the
      str the ping's bytes became (one character per byte). */
  lemma PingAnswered(s: seq<byte>, pos: nat, client: Option<Client>)
    requires pos <= |s| && ReadFrame(s, pos).0.Data? && ReadFrame(s, pos).0.opcode == OPCODE_PING
    requires |ReadFrame(s, pos).0.payload| < LIMIT64 / 2
    ensures var r := React(ReadFrame(s, pos).0, client);
      && r.events == [] && !r.closed && r.failure.None?
      && r.sent == [ServerFrame(OPCODE_PONG, Encode(Latin1(ReadFrame(s, pos).0.payload))).value]
  {
    Latin1Encoded(ReadFrame(s, pos).0.payload);
  }

  /** The pong carries the ping's bytes unchanged when they are all ASCII. */
  lemma PongEchoesAscii(payload: seq<byte>)
    requires forall i :: 0 <= i < |payload| ==> payload[i] < 0x80
    ensures Encode(Latin1(payload)) == payload
  {
    var t := Latin1(payload);
    forall i | 0 <= i < |payload| ensures t[i] as int == payload[i] {
      Latin1At(payload, i);
    }
    EncodeAscii(t);
  }

  /** ... and not otherwise: a ping carrying the single byte 0xC3 is answered
      with a pong carrying the two bytes 0xC3 0x83, the UTF-8 of U+00C3. */
  lemma PongReencodes()
    ensures Outgoing(Text(Latin1([0xC3])), OPCODE_PONG) == Sent([0x8A, 2, 0xC3, 0x83])
  {
    assert Latin1([0xC3]) == [0xC3 as char];
    assert Encode([0xC3 as char]) == [0xC3, 0x83];
  }

  /** Character i of the str is byte i. */
  lemma {:induction false} Latin1At(b: seq<byte>, i: nat)
    requires i < |b|
    ensures Latin1(b)[i] as int == b[i]
  {
    if i < |b| - 1 {
      Latin1At(b[..|b| - 1], i);
    }
  }

  /** Each Latin-1 character takes at most two UTF-8 bytes. */
  lemma {:induction false} Latin1Encoded(b: seq<byte>)
    ensures |Encode(Latin1(b))| <= 2 * |b|
  {
    if b != [] {
      Latin1Encoded(b[..|b| - 1]);
      EncodeAppend(Latin1(b[..|b| - 1]), [b[|b| - 1] as char]);
    }
  }

  // ---------------------------------------------------------------- registry

  /** The clients dict (handler -> id) with its insertion order, and id_counter. */
  datatype Registry = Registry(clients: map<WebSocketHandler, nat>, order: seq<WebSocketHandler>, idCounter: nat)

  /** What a connection leaves behind: the frames it sent, the server's
      callbacks and the server's registry. */
  datatype Footprint = Footprint(sent: seq<seq<byte>>, events: seq<Event>, reg: Registry)

  /** The dict's keys are its order without repetition, and every id was
      handed out by the counter, each to one handler. */
  predicate Valid(r: Registry)
  {
    && (forall h :: h in r.clients ==> h in r.order)
    && (forall i :: 0 <= i < |r.order| ==> r.order[i] in r.clients)
    && Distinct(r.order)
    && (forall h :: h in r.clients ==> 1 <= r.clients[h] <= r.idCounter)
    && (forall h, h' :: h in r.clients && h' in r.clients && h != h' ==> r.clients[h] != r.clients[h'])
  }

  /** _new_client_: the counter goes up and the handler gets the new id; a key
      already in the dict keeps its place. */
  function Register(r: Registry, h: WebSocketHandler): Registry
  {
    Registry(r.clients[h := r.idCounter + 1], if h in r.clients then r.order else r.order + [h], r.idCounter + 1)
  }

  /** clients.pop(handler, None). */
  function Unregister(r: Registry, h: WebSocketHandler): (r': Registry)
    ensures h !in r'.clients
  {
    Registry(r.clients - {h}, Without(r.order, h), r.idCounter)
  }

  function Without(s: seq<WebSocketHandler>, h: WebSocketHandler): (r: seq<WebSocketHandler>)
    ensures forall x :: x in r ==> x in s && x != h
    ensures forall x :: x in s && x != h ==> x in r
    ensures |r| <= |s|
  {
    if s == [] then [] else (if s[0] == h then [] else [s[0]]) + Without(s[1..], h)
  }

  /** handler_to_client: None where the dict lookup raises KeyError. */
  function ClientOf(r: Registry, h: WebSocketHandler): (c: Option<Client>)
    ensures c.Some? <==> h in r.clients
    ensures c.Some? ==> c.value.handler == h && c.value.id == r.clients[h]
  {
    if h in r.clients then Some(Client(r.clients[h], h, h.address)) else None
  }

  /** hasClients. */
  predicate AnyClients(r: Registry)
  {
    |r.clients| > 0
  }

  /** Every id handed out is larger than every id in use. */
  lemma {:induction false} RegisterFresh(r: Registry, h: WebSocketHandler)
    requires Valid(r)
    ensures Valid(Register(r, h))
    ensures forall h' :: h' in r.clients ==> r.clients[h'] < Register(r, h).clients[h]
    ensures AnyClients(Register(r, h))
  {
    var r' := Register(r, h);
    assert h in r'.clients;
    forall i, j | 0 <= i < j < |r'.order| ensures r'.order[i] != r'.order[j] {
      if h !in r.clients && j == |r.order| {
        assert r'.order[i] == r.order[i];
      }
    }
  }

  lemma {:induction false} WithoutDistinct(s: seq<WebSocketHandler>, h: WebSocketHandler)
    requires Distinct(s)
    ensures Distinct(Without(s, h))
  {
    if s != [] {
      var t := Without(s[1..], h);
      WithoutDistinct(s[1..], h);
      var w := Without(s, h);
      if s[0] != h {
        assert w == [s[0]] + t;
        forall i, j | 0 <= i < j < |w| ensures w[i] != w[j] {
          if i == 0 {
            assert w[j] == t[j - 1] && t[j - 1] in t;
            var k :| 0 <= k < |s[1..]| && s[1..][k] == t[j - 1];
            assert s[k + 1] == w[j];
          } else {
            assert w[i] == t[i - 1] && w[j] == t[j - 1];
          }
        }
      } else {
        assert w == t;
      }
    }
  }

  /** _client_left_ keeps the invariant. */
  lemma UnregisterValid(r: Registry, h: WebSocketHandler)
    requires Valid(r)
    ensures Valid(Unregister(r, h))
  {
    var r' := Unregister(r, h);
    WithoutDistinct(r.order, h);
    forall x | x in r'.clients ensures x in r'.order {
      assert x in r.clients && x in r.order && x != h;
    }
    forall i | 0 <= i < |r'.order| ensures r'.order[i] in r'.clients {
      var x := r'.order[i];
      assert x in r'.order;
      var k :| 0 <= k < |r.order| && r.order[k] == x;
    }
  }

  /** A second _client_left_ for the same handler changes nothing. */
  lemma UnregisterTwice(r: Registry, h: WebSocketHandler)
    ensures Unregister(Unregister(r, h), h) == Unregister(r, h)
  {
    var r' := Unregister(r, h);
    assert h !in r'.order;
    WithoutAbsent(r'.order, h);
    assert r'.clients - {h} == r'.clients;
  }

  lemma {:induction false} WithoutAbsent(s: seq<WebSocketHandler>, h: WebSocketHandler)
    requires h !in s
    ensures Without(s, h) == s
  {
    if s != [] {
      WithoutAbsent(s[1..], h);
    }
  }

  lemma {:induction false} WithoutLast(s: seq<WebSocketHandler>, h: WebSocketHandler)
    requires h !in s
    ensures Without(s + [h], h) == s
  {
    if s == [] {
      assert [h][1..] == [];
    } else {
      assert (s + [h])[1..] == s[1..] + [h];
      WithoutLast(s[1..], h);
    }
  }

  /** handler_to_client finds a newly registered handler under the new id. */
  lemma ClientOfRegister(r: Registry, h: WebSocketHandler)
    ensures ClientOf(Register(r, h), h) == Some(Client(r.idCounter + 1, h, h.address))
  {
  }

  /** clients.pop(handler, None) for a handler that is not there changes nothing. */
  lemma UnregisterAbsent(r: Registry, h: WebSocketHandler)
    requires Valid(r) && h !in r.clients
    ensures Unregister(r, h) == r
  {
    assert h !in r.order;
    WithoutAbsent(r.order, h);
    assert r.clients - {h} == r.clients;
  }

  /** A handler that registers and then leaves leaves the dict as it found it;
      only the counter has moved on. */
  lemma RegisterUnregister(r: Registry, h: WebSocketHandler)
    requires Valid(r) && h !in r.clients
    ensures Unregister(Register(r, h), h) == r.(idCounter := r.idCounter + 1)
  {
    assert h !in r.order;
    RegisterUnregisterAbsent(r, h);
  }

  lemma RegisterUnregisterAbsent(r: Registry, h: WebSocketHandler)
    requires h !in r.clients && h !in r.order
    ensures Unregister(Register(r, h), h) == Registry(r.clients, r.order, r.idCounter + 1)
  {
    var r1 := Register(r, h);
    WithoutLast(r.order, h);
    assert r1.clients - {h} == r.clients;
  }

  /** hasClients holds exactly when some handler is registered. */
  lemma HasClientsOrder(r: Registry)
    requires Valid(r)
    ensures AnyClients(r) <==> r.order != []
  {
    if r.order != [] {
      assert r.order[0] in r.clients;
    }
    if AnyClients(r) {
      var h :| h in r.clients;
      assert h in r.order;
    }
  }

  // ---------------------------------------------------------------- unmasking

  /** The loop of read_next_message that takes the mask off: byte i is
      exclusive-or'ed with masks[len(decoded) % 4] and appended to decoded as
      chr(byte). */
  method Unmask(data: seq<byte>, masks: seq<byte>) returns (decoded: string)
    requires data != [] ==> |masks| == 4
    ensures decoded == Latin1(Mask(data, masks))
    ensures |decoded| == |data|
    ensures forall i :: 0 <= i < |data| ==> decoded[i] as int == BitXor(data[i], masks[i % 4])
  {
    decoded := "";
    for i := 0 to |data|
      invariant decoded == Latin1(Mask(data[..i], masks))
    {
      assert data[..i + 1][..i] == data[..i];
      var c := XorByte(data[i], masks[|decoded| % 4]);
      decoded := decoded + [c as char];
    }
    assert data[..|data|] == data;
    forall i | 0 <= i < |data|
      ensures decoded[i] as int == BitXor(data[i], masks[i % 4])
    {
      Latin1At(Mask(data, masks), i);
      MaskAt(data, masks, i);
    }
  }

  // ---------------------------------------------------------------- classes

  class WebsocketServer {
    const port: nat
    const host: string
    /** hashlib.sha1(...).digest(), which the model does not define. */
    const sha1: seq<byte> -> seq<byte>
    var clients: map<WebSocketHandler, nat>
    /** The order the handlers were added to clients, which list(clients.keys()) follows. */
    var order: seq<WebSocketHandler>
    var idCounter: nat
    /** The callbacks fired so far. */
    var events: seq<Event>

    function Reg(): Registry
      reads this`clients, this`order, this`idCounter
    {
      Registry(clients, order, idCounter)
    }

    constructor(port: nat, host: string, sha1: seq<byte> -> seq<byte>)
      ensures this.port == port && this.host == host && this.sha1 == sha1
      ensures Reg() == Registry(map[], [], 0) && events == []
      ensures Valid(Reg())
    {
      this.port := port;
      this.host := host;
      this.sha1 := sha1;
      clients := map[];
      order := [];
      idCounter := 0;
      events := [];
    }

    /** hasClients: bool(self.clients). */
    method HasClients() returns (r: bool)
      requires Valid(Reg())
      ensures r <==> AnyClients(Reg())
      ensures r <==> order != []
    {
      HasClientsOrder(Reg());
      r := |clients| > 0;
    }

    /** handler_to_client: None where the dict lookup raises KeyError. */
    method HandlerToClient(handler: WebSocketHandler) returns (r: Option<Client>)
      ensures r.Some? <==> handler in clients
      ensures r.Some? ==> r.value == Client(clients[handler], handler, handler.address)
    {
      if handler in clients {
        r := Some(Client(clients[handler], handler, handler.address));
      } else {
        r := None;
      }
    }

    /** _new_client_ */
    method NewClient(handler: WebSocketHandler)
      requires Valid(Reg())
      modifies this`clients, this`order, this`idCounter, this`events
      ensures Reg() == Register(old(Reg()), handler) && Valid(Reg())
      ensures clients[handler] == old(idCounter) + 1
      ensures events == old(events) + [Connected(Client(old(idCounter) + 1, handler, handler.address))]
    {
      ghost var next := Register(Reg(), handler);
      RegisterFresh(Reg(), handler);
      idCounter := idCounter + 1;
      if handler !in clients {
        order := order + [handler];
      }
      clients := clients[handler := idCounter];
      assert Reg() == next;
      var c := HandlerToClient(handler);
      events := events + [Connected(c.value)];
    }

    /** _client_left_ */
    method ClientLeft(handler: WebSocketHandler)
      requires Valid(Reg())
      modifies this`clients, this`order, this`events
      ensures Reg() == Unregister(old(Reg()), handler) && Valid(Reg())
      ensures events == old(events) + (if handler in old(clients) then [Left(ClientOf(old(Reg()), handler).value)] else [])
    {
      UnregisterValid(Reg(), handler);
      var c := HandlerToClient(handler);
      if c.Some? {
        events := events + [Left(c.value)];
      }
      clients := clients - {handler};
      order := Without(order, handler);
    }

    /** _message_received_: an unregistered handler ends in the AttributeError
        of the call to the undefined _client_left. */
    method MessageReceived(handler: WebSocketHandler, msg: string) returns (failure: Option<Failure>)
      modifies this`events
      ensures failure.Some? <==> handler !in clients
      ensures failure.Some? ==> failure.value == NoClientLeftMethod
      ensures events == old(events) + (if handler in clients then [Received(ClientOf(Reg(), handler).value, msg)] else [])
    {
      var c := HandlerToClient(handler);
      if c.None? {
        return Some(NoClientLeftMethod);
      }
      events := events + [Received(c.value, msg)];
      failure := None;
    }

    /** _ping_received_: answer with a pong carrying the same str. */
    method PingReceived(handler: WebSocketHandler, msg: string) returns (failure: Option<Failure>)
      modifies handler`sent
      ensures var r := Outgoing(Text(msg), OPCODE_PONG);
        && handler.sent == old(handler.sent) + (if r.Sent? then [r.frame] else [])
        && failure == (if r.TooBig? then Some(MessageTooBig) else None)
    {
      var r := handler.SendPong(msg);
      failure := if r.TooBig? then Some(MessageTooBig) else None;
    }

    /** _unicast_: send_message on the client's handler, registered or not. */
    method Unicast(to: Client, msg: Message) returns (r: Send)
      modifies to.handler`sent
      ensures r == Outgoing(msg, OPCODE_TEXT)
      ensures to.handler.sent == old(to.handler.sent) + (if r.Sent? then [r.frame] else [])
    {
      r := to.handler.SendMessage(msg);
    }

    /** _multicast_: send_message to each handler of a snapshot of the keys,
        in the dict's order; the exception for a message too big comes at the
        first handler, before anything is sent. */
    method Multicast(msg: Message) returns (failure: Option<Failure>)
      requires Valid(Reg())
      modifies set h | h in clients :: h`sent
      ensures var r := Outgoing(msg, OPCODE_TEXT);
        failure.Some? <==> r.TooBig? && order != []
      ensures var r := Outgoing(msg, OPCODE_TEXT);
        forall h :: h in old(order) ==> h.sent == old(h.sent) + (if r.Sent? then [r.frame] else [])
    {
      var r := Outgoing(msg, OPCODE_TEXT);
      var keys := order;
      var i := 0;
      while i < |keys|
        invariant 0 <= i <= |keys|
        invariant r.TooBig? ==> i == 0
        invariant forall k :: 0 <= k < i ==> keys[k].sent == old(keys[k].sent) + (if r.Sent? then [r.frame] else [])
        invariant forall k :: i <= k < |keys| ==> keys[k].sent == old(keys[k].sent)
      {
        var s := keys[i].SendMessage(msg);
        if s.TooBig? {
          return Some(MessageTooBig);
        }
        i := i + 1;
      }
      failure := None;
    }
  }

  class WebSocketHandler {
    const server: WebsocketServer
    const address: Address
    /** What recv(1024) returns during the handshake. */
    const request: seq<byte>
    /** What the client sends after it; rfile reads it from position pos. */
    const stream: seq<byte>
    var pos: nat
    var keepAlive: bool
    var handshakeDone: bool
    var validClient: bool
    /** Everything passed to request.send, in order. */
    var sent: seq<seq<byte>>

    /** StreamRequestHandler's constructor: it stores the connection, then
        runs setup, handle and finish; finish runs whether or not handle
        raised. */
    constructor(server: WebsocketServer, address: Address, request: seq<byte>, stream: seq<byte>)
      requires |request| <= 1024 && Valid(server.Reg())
      modifies server
      ensures this.server == server && this.address == address
      ensures this.request == request && this.stream == stream
      ensures Trace() == Served(old(server.Reg()), old(server.events))
      ensures Valid(server.Reg()) && this !in server.clients
    {
      this.server := server;
      this.address := address;
      this.request := request;
      this.stream := stream;
      pos := 0;
      keepAlive := false;
      handshakeDone := false;
      validClient := false;
      sent := [];
      new;
      assert server.clients == old(server.clients) && server.order == old(server.order);
      assert server.idCounter == old(server.idCounter) && server.events == old(server.events);
      assert server.Reg() == old(server.Reg());
      Serve();
    }

    /** BaseRequestHandler's constructor after storing the connection: setup,
        then handle, then finish, which runs whether or not handle raised. */
    method Serve()
      requires pos == 0 && sent == [] && Valid(server.Reg()) && this !in server.clients
      modifies this`pos, this`keepAlive, this`handshakeDone, this`validClient, this`sent
      modifies server`clients, server`order, server`idCounter, server`events
      ensures Trace() == Served(old(server.Reg()), old(server.events))
      ensures Valid(server.Reg()) && this !in server.clients
    {
      ghost var reg0, events0 := server.Reg(), server.events;
      ghost var c := Client(reg0.idCounter + 1, this, address);
      ghost var session := Session(request, stream, server.sha1, c);
      Setup();
      assert sent == [] && c == Client(server.idCounter + 1, this, address) && server.Reg() == reg0;
      var failure, session', accepted := Handle();
      assert session' == session;
      ConcatEmpty(session.sent);
      assert sent == session.sent;
      FinishSession(reg0, c, accepted);
    }

    /** What this connection leaves behind so far: the frames it sent, the
        server's callbacks and the server's registry. */
    ghost function Trace(): Footprint
      reads this, server
    {
      Footprint(sent, server.events, server.Reg())
    }

    /** What serving the connection leaves behind, given the registry reg0 and
        the events events0 from before: the frames sent are the session's; its
        callbacks were fired, followed by client_left for a client that
        completed the handshake; the registry is back to reg0, with the id
        counter one further for such a client. */
    ghost function Served(reg0: Registry, events0: seq<Event>): Footprint
    {
      var c := Client(reg0.idCounter + 1, this, address);
      var session := Session(request, stream, server.sha1, c);
      if WsHandshake.Handshake(request, server.sha1).Accepted? then
        Footprint(session.sent, events0 + session.events + [Left(c)], reg0.(idCounter := reg0.idCounter + 1))
      else
        Footprint(session.sent, events0 + session.events, reg0)
    }

    /** setup */
    method Setup()
      modifies this`keepAlive, this`handshakeDone, this`validClient
      ensures keepAlive && !handshakeDone && !validClient
    {
      keepAlive := true;
      handshakeDone := false;
      validClient := false;
    }

    /** finish */
    method Finish()
      requires Valid(server.Reg())
      modifies server`clients, server`order, server`events
      ensures server.Reg() == Unregister(old(server.Reg()), this) && Valid(server.Reg())
      ensures this in old(server.clients) ==>
        server.events == old(server.events) + [Left(ClientOf(old(server.Reg()), this).value)]
      ensures this !in old(server.clients) ==> server.events == old(server.events)
    {
      server.ClientLeft(this);
    }

    /** finish, at the end of a connection whose handshake was accepted or
        not: the registry returns to reg0 (with the id counter one further
        after an accepted handshake) and client_left fires only for a client
        that was registered. */
    method FinishSession(ghost reg0: Registry, ghost c: Client, ghost accepted: bool)
      requires Valid(reg0) && this !in reg0.clients && c == Client(reg0.idCounter + 1, this, address)
      requires accepted ==> server.Reg() == Register(reg0, this)
      requires !accepted ==> server.Reg() == reg0
      modifies server`clients, server`order, server`events
      ensures accepted ==> server.Reg() == reg0.(idCounter := reg0.idCounter + 1)
      ensures accepted ==>
        server.events == old(server.events) + [Left(c)]
      ensures !accepted ==> server.Reg() == reg0 && server.events == old(server.events)
      ensures Valid(server.Reg()) && this !in server.clients
    {
      if accepted {
        RegisterUnregister(reg0, this);
        ClientOfRegister(reg0, this);
      } else {
        UnregisterAbsent(reg0, this);
      }
      Finish();
    }

    /** send_message */
    method SendMessage(message: Message) returns (r: Send)
      modifies this`sent
      ensures r == Outgoing(message, OPCODE_TEXT)
      ensures sent == old(sent) + (if r.Sent? then [r.frame] else [])
    {
      r := SendText(message, OPCODE_TEXT);
    }

    /** send_pong */
    method SendPong(message: string) returns (r: Send)
      modifies this`sent
      ensures r == Outgoing(Text(message), OPCODE_PONG)
      ensures sent == old(sent) + (if r.Sent? then [r.frame] else [])
    {
      r := SendText(Text(message), OPCODE_PONG);
    }

    /** send_text: validate the message, build the header byte by byte and send
        header and payload together. */
    method SendText(message: Message, opcode: nat) returns (r: Send)
      requires opcode < 16
      modifies this`sent
      ensures r == Outgoing(message, opcode)
      ensures sent == old(sent) + (if r.Sent? then [r.frame] else [])
    {
      var payload: seq<byte>;
      match message {
        case Bytes(b) =>
          var text := Decode(b);
          if text.None? || text.value == [] {
            return Refused;
          }
          payload := Encode(text.value);
        case Text(s) =>
          payload := Encode(s);
        case Other =>
          return Refused;
      }
      assert Payload(message) == Some(payload);
      var header: seq<byte> := [];
      var n := |payload|;
      FirstByteIsOr(opcode);
      var first := BitOr(FIN, opcode);
      if n <= 125 {
        header := header + [first];
        header := header + [n];
      } else if 126 <= n <= 65535 {
        header := header + [first];
        header := header + [PAYLOAD_LEN_EXT16];
        header := header + BigEndian(n, 2);
      } else if n < LIMIT64 {
        header := header + [first];
        header := header + [PAYLOAD_LEN_EXT64];
        header := header + BigEndian(n, 8);
      } else {
        return TooBig;
      }
      assert header == [first] + LengthField(n).value;
      sent := sent + [header + payload];
      r := Sent(header + payload);
    }

    /** rfile.read(n): at most n bytes from position pos on. */
    method ReadBytes(n: nat) returns (r: seq<byte>)
      requires pos <= |stream|
      modifies this`pos
      ensures r == Read(stream, old(pos), n) && pos == old(pos) + |r| <= |stream|
    {
      r := Read(stream, pos, n);
      pos := pos + |r|;
    }

    /** The extended payload length read after a 7-bit length of 126 or 127;
        None where struct.unpack raises because fewer bytes came. */
    method ReadPayloadLength(len7: nat) returns (n: Option<nat>)
      requires pos <= |stream|
      modifies this`pos
      ensures var r := ReadLength(stream, old(pos), len7);
        && n == (if r.Some? then Some(r.value.0) else None)
        && pos == (if r.Some? then r.value.1 else |stream|)
    {
      if len7 == 126 {
        var d := ReadBytes(2);
        if |d| < 2 {
          return None;
        }
        n := Some(FromBigEndian(d));
      } else if len7 == 127 {
        var d := ReadBytes(8);
        if |d| < 8 {
          return None;
        }
        n := Some(FromBigEndian(d));
      } else {
        n := Some(len7);
      }
    }

    /** The opcode handler read_next_message picks for a text, ping or pong
        frame (_pong_received_ does nothing). */
    method Dispatch(opcode: nat, decoded: string) returns (failure: Option<Failure>)
      modifies this`sent, server`events
      ensures var rc := ReactData(opcode, decoded, ClientOf(server.Reg(), this));
        && sent == old(sent) + rc.sent
        && server.events == old(server.events) + rc.events
        && failure == rc.failure
    {
      if opcode == OPCODE_TEXT {
        failure := server.MessageReceived(this, decoded);
      } else if opcode == OPCODE_PING {
        failure := server.PingReceived(this, decoded);
      } else {
        failure := None;
      }
    }

    /** read_next_message: one frame from position pos on, and what it triggers. */
    method ReadNextMessage() returns (failure: Option<Failure>, ghost rc: Reaction)
      requires pos <= |stream|
      modifies this`pos, this`keepAlive, this`sent, server`events
      ensures rc == React(ReadFrame(stream, old(pos)).0, ClientOf(server.Reg(), this))
      ensures pos == ReadFrame(stream, old(pos)).1
      ensures keepAlive == (old(keepAlive) && !rc.closed)
      ensures sent == old(sent) + rc.sent && server.events == old(server.events) + rc.events
      ensures failure == rc.failure
    {
      ghost var frame := ReadFrame(stream, pos);
      rc := React(frame.0, ClientOf(server.Reg(), this));
      var b1, b2 := ReadHeader();
      HeaderFields(b1);
      HeaderFields(b2);
      var opcode := BitAnd(b1, OPCODE);
      var masked := BitAnd(b2, MASKED);
      var payloadLength := BitAnd(b2, PAYLOAD_LEN);
      if b1 == 0 {
        assert frame == (ConnectionClosed, pos) && rc == Reaction([], [], true, None);
        keepAlive := false;
        failure := None;
        return;
      }
      if opcode == OPCODE_CLOSE_CONN {
        assert frame == (CloseRequested, pos) && rc == Reaction([], [], true, None);
        keepAlive := false;
        failure := None;
        return;
      }
      if masked == 0 {
        assert frame == (NotMasked, pos) && rc == Reaction([], [], true, None);
        keepAlive := false;
        failure := None;
        return;
      }
      if opcode == OPCODE_CONTINUATION || opcode == OPCODE_BINARY {
        assert frame == (Unsupported(opcode), pos) && rc == Reaction([], [], false, None);
        failure := None;
        return;
      }
      if !(opcode == OPCODE_TEXT || opcode == OPCODE_PING || opcode == OPCODE_PONG) {
        assert frame == (UnknownOpcode(opcode), pos) && rc == Reaction([], [], false, Some(UnknownOpcodeLogged));
        failure := Some(UnknownOpcodeLogged);
        return;
      }
      assert frame == ReadBody(stream, pos, opcode, payloadLength);
      failure := ReadBodyAndDispatch(opcode, payloadLength);
    }

    /** The two header bytes, each 0 where fewer than two bytes came. */
    method ReadHeader() returns (b1: nat, b2: nat)
      requires pos <= |stream|
      modifies this`pos
      ensures var hdr := Read(stream, old(pos), 2);
        && pos == old(pos) + |hdr|
        && b1 == (if |hdr| == 2 then hdr[0] else 0)
        && b2 == (if |hdr| == 2 then hdr[1] else 0)
    {
      var hdr := ReadBytes(2);
      b1, b2 := 0, 0;
      if |hdr| == 2 {
        b1, b2 := hdr[0], hdr[1];
      }
    }

    /** The part of read_next_message after the header of a text, ping or pong
        frame: the extended length, the masks, the payload, and the handler. */
    method ReadBodyAndDispatch(opcode: nat, len7: nat) returns (failure: Option<Failure>)
      requires pos <= |stream|
      modifies this`pos, this`sent, server`events
      ensures var rc := React(ReadBody(stream, old(pos), opcode, len7).0, ClientOf(server.Reg(), this));
        && pos == ReadBody(stream, old(pos), opcode, len7).1
        && sent == old(sent) + rc.sent
        && server.events == old(server.events) + rc.events
        && failure == rc.failure
    {
      ghost var body := ReadBody(stream, pos, opcode, len7);
      var length := ReadPayloadLength(len7);
      if length.None? {
        return Some(ExtendedLengthShort);
      }
      var masks := ReadBytes(4);
      var data := ReadBytes(length.value);
      assert body == (Data(opcode, Mask(data, masks)), pos);
      var decoded := Unmask(data, masks);
      failure := Dispatch(opcode, decoded);
    }

    /** handshake: answer the request, or clear keep_alive when a header is
        missing; a request that is not UTF-8 raises. */
    method Handshake() returns (failure: Option<Failure>)
      requires Valid(server.Reg())
      modifies this`keepAlive, this`handshakeDone, this`validClient, this`sent
      modifies server`clients, server`order, server`idCounter, server`events
      ensures Valid(server.Reg())
      ensures var o := WsHandshake.Handshake(request, server.sha1); !o.Accepted? ==>
        && failure == (if o.Undecodable? then Some(RequestNotUtf8) else None)
        && keepAlive == (old(keepAlive) && o.Undecodable?)
        && handshakeDone == old(handshakeDone) && validClient == old(validClient)
        && sent == old(sent) && server.events == old(server.events) && server.Reg() == old(server.Reg())
      ensures var o := WsHandshake.Handshake(request, server.sha1); o.Accepted? ==>
        && failure == None && keepAlive == old(keepAlive) && handshakeDone && validClient
        && sent == old(sent) + [Encode(WsHandshake.ResponseText(o.accept))]
        && server.Reg() == Register(old(server.Reg()), this)
        && server.events == old(server.events) + [Connected(Client(old(server.idCounter) + 1, this, address))]
    {
      match WsHandshake.Handshake(request, server.sha1) {
        case Undecodable =>
          failure := Some(RequestNotUtf8);
        case NoUpgrade =>
          keepAlive := false;
          failure := None;
        case NoKey =>
          keepAlive := false;
          failure := None;
        case Accepted(_, accept) =>
          Accept(Encode(WsHandshake.ResponseText(accept)));
          failure := None;
      }
    }

    /** The end of a successful handshake: the response is sent, send's byte
        count becomes handshake_done, and the client is registered. */
    method Accept(response: seq<byte>)
      requires Valid(server.Reg())
      modifies this`handshakeDone, this`validClient, this`sent
      modifies server`clients, server`order, server`idCounter, server`events
      ensures handshakeDone == (response != []) && validClient
      ensures sent == old(sent) + [response]
      ensures server.Reg() == Register(old(server.Reg()), this) && Valid(server.Reg())
      ensures server.events == old(server.events) + [Connected(Client(old(server.idCounter) + 1, this, address))]
    {
      sent := sent + [response];
      handshakeDone := |response| != 0;
      validClient := true;
      server.NewClient(this);
    }

    /** handle(): handshake first, then frames while keep_alive holds. */
    method Handle() returns (failure: Option<Failure>, ghost session: Reaction, ghost accepted: bool)
      requires keepAlive && !handshakeDone && !validClient && pos == 0 && Valid(server.Reg())
      modifies this`pos, this`keepAlive, this`handshakeDone, this`validClient, this`sent
      modifies server`clients, server`order, server`idCounter, server`events
      ensures session == Session(request, stream, server.sha1, Client(old(server.idCounter) + 1, this, address))
      ensures accepted == WsHandshake.Handshake(request, server.sha1).Accepted?
      ensures sent == old(sent) + session.sent && server.events == old(server.events) + session.events
      ensures failure == session.failure && keepAlive == !session.closed
      ensures accepted ==> server.Reg() == Register(old(server.Reg()), this)
      ensures !accepted ==> server.Reg() == old(server.Reg())
      ensures Valid(server.Reg())
    {
      ghost var reg0, sent0, events0 := server.Reg(), sent, server.events;
      ghost var c := Client(server.idCounter + 1, this, address);
      session := Session(request, stream, server.sha1, c);
      accepted := WsHandshake.Handshake(request, server.sha1).Accepted?;
      ghost var done: seq<seq<byte>>, fired: seq<Event> := [], [];
      failure := None;
      while keepAlive && failure.None?
        invariant Handling(failure, session, c, accepted, reg0, sent0, events0, done, fired)
        decreases !handshakeDone, |stream| - pos, keepAlive, failure.None?
      {
        if !handshakeDone {
          failure, done, fired := HandshakeStep(session, c, accepted, reg0, sent0, events0);
        } else if validClient {
          failure, done, fired := MessageStep(session, c, accepted, reg0, sent0, events0, done, fired);
        }
      }
    }

    /** The invariant of handle's loop, for the session the connection has in
        all, the client record c it is registered under once accepted, and the
        registry reg0, the frames sent0 and the events events0 from before the
        loop: done and fired are what the connection has sent and fired since,
        and the session is what they begin (and, once the loop stops, all of
        it). */
    ghost predicate Handling(failure: Option<Failure>, session: Reaction, c: Client, accepted: bool,
        reg0: Registry, sent0: seq<seq<byte>>, events0: seq<Event>, done: seq<seq<byte>>, fired: seq<Event>)
      reads this, server
    {
      && Valid(server.Reg()) && pos <= |stream|
      && (handshakeDone ==>
           && validClient && accepted && server.Reg() == Register(reg0, this)
           && sent == sent0 + done && server.events == events0 + fired)
      && (!handshakeDone ==>
           && pos == 0 && done == [] && fired == [] && server.Reg() == reg0
           && sent == sent0 && server.events == events0)
      && (handshakeDone && keepAlive && failure.None? ==> session == After(done, fired, Converse(stream, pos, Some(c))))
      && (!(keepAlive && failure.None?) ==> session == Reaction(done, fired, !keepAlive, failure))
    }

    /** The first pass of handle's loop: the handshake. */
    method HandshakeStep(ghost session: Reaction, ghost c: Client, ghost accepted: bool,
        ghost reg0: Registry, ghost sent0: seq<seq<byte>>, ghost events0: seq<Event>)
        returns (failure: Option<Failure>, ghost done: seq<seq<byte>>, ghost fired: seq<Event>)
      requires session == Session(request, stream, server.sha1, c) && c == Client(server.idCounter + 1, this, address)
      requires accepted == WsHandshake.Handshake(request, server.sha1).Accepted?
      requires keepAlive && !handshakeDone && Handling(None, session, c, accepted, reg0, sent0, events0, [], [])
      modifies this`keepAlive, this`handshakeDone, this`validClient, this`sent
      modifies server`clients, server`order, server`idCounter, server`events
      ensures Handling(failure, session, c, accepted, reg0, sent0, events0, done, fired)
      ensures handshakeDone || !(keepAlive && failure.None?)
    {
      ghost var outcome := WsHandshake.Handshake(request, server.sha1);
      failure := Handshake();
      if outcome.Accepted? {
        done, fired := [Encode(WsHandshake.ResponseText(outcome.accept))], [Connected(c)];
      } else {
        done, fired := [], [];
      }
    }

    /** A later pass of handle's loop: one frame. */
    method MessageStep(ghost session: Reaction, ghost c: Client, ghost accepted: bool,
        ghost reg0: Registry, ghost sent0: seq<seq<byte>>, ghost events0: seq<Event>,
        ghost done0: seq<seq<byte>>, ghost fired0: seq<Event>)
        returns (failure: Option<Failure>, ghost done: seq<seq<byte>>, ghost fired: seq<Event>)
      requires c == Client(reg0.idCounter + 1, this, address)
      requires keepAlive && handshakeDone && Handling(None, session, c, accepted, reg0, sent0, events0, done0, fired0)
      modifies this`pos, this`keepAlive, this`sent, server`events
      ensures Handling(failure, session, c, accepted, reg0, sent0, events0, done, fired)
      ensures handshakeDone && old(pos) <= pos && (old(pos) < pos || !(keepAlive && failure.None?))
    {
      assert ClientOf(server.Reg(), this) == Some(c);
      ghost var p := pos;
      ghost var rc;
      failure, rc := ReadNextMessage();
      ConverseStep(stream, p, Some(c), done0, fired0, rc, pos);
      done, fired := done0 + rc.sent, fired0 + rc.events;
      ConcatAssoc(sent0, done0, rc.sent);
      ConcatAssoc(events0, fired0, rc.events);
    }
  }

  /** What one connection does from the request on, for the client record it
      would be registered under. */
  function Session(request: seq<byte>, stream: seq<byte>, sha1: seq<byte> -> seq<byte>, c: Client): (r: Reaction)
    ensures r.closed != r.failure.Some?
  {
    match WsHandshake.Handshake(request, sha1)
    case Undecodable => Reaction([], [], false, Some(RequestNotUtf8))
    case NoUpgrade => Reaction([], [], true, None)
    case NoKey => Reaction([], [], true, None)
    case Accepted(_, accept) =>
      After([Encode(WsHandshake.ResponseText(accept))], [Connected(c)], Converse(stream, 0, Some(c)))
  }
}
