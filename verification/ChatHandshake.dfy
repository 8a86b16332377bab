/**
 The chat handshake of two peers (icq/src/chat.cpp:861-1173): one socket, two
 FIFO channels of bytes-packets, and at each end the state of the ChatUser.

 The connector has connected and shaken hands; the acceptor answers by whether
 it has a reverse-connect request pending for that user. Whoever asked for the
 chat sends the Color packet. Settings may change, and connected peers may
 send raw chat bytes, at any time.
 */
module ChatHandshake {
  import opened Bytes
  import opened Sequences
  import opened ChatStream
  import opened ChatPackets
  import opened ChatPacketWriters

  datatype State = WaitHandshake | WaitColor | WaitColorFont | WaitFont | Connected

  /** What travels: the direct-connection handshake, a framed packet, raw chat bytes. */
  datatype Item = Shake | Packet(bytes: seq<Byte>) | Raw(bytes: seq<Byte>)

  // What a ChatUser was given by its peer's packets; the UIN comes with ColorFont.
  datatype Heard = Heard(uin: UInt32, name: seq<Byte>, fore: Color, back: Color, font: FontPacket)

  /** One end: its settings; the settings its colour and font packets were built
      from; what it heard; the raw bytes that reached ProcessRaw. */
  datatype Peer = Peer(
    state: State, me: Settings, pending: bool, others: seq<Client>,
    saidColors: Settings, saidFont: Settings, heard: Heard, clients: seq<Client>,
    raw: seq<seq<Byte>>, connections: nat, misread: bool)

  // A packet behind the length its reader expects.
  function Framed(bytes: seq<Byte>): Item {
    Packet(Le16(LengthOf(bytes)) + bytes)
  }

  function LengthOf(bytes: seq<Byte>): UInt16 {
    |bytes| % 0x1_0000
  }

  function SendColor(p: Peer): (Peer, seq<Item>) {
    (p.(saidColors := p.me, state := WaitColorFont), [Framed(ColorData(p.me))])
  }

  /** ProcessPacket, or ProcessRaw once connected. Reading something its state
      does not expect is recorded as a misreading. */
  function Reads(p: Peer, i: Item): (r: (Peer, seq<Item>)) {
    match (p.state, i)
    case (WaitHandshake, Shake) =>
      if p.pending then SendColor(p) else (p.(state := WaitColor), [])
    case (WaitColor, Packet(bytes)) =>
      var pin := DecodeColor(bytes);
      (p.(heard := p.heard.(name := pin.name, fore := pin.fore, back := pin.back),
          saidColors := p.me, saidFont := p.me, state := WaitFont),
       [Framed(ColorFontData(p.me, p.others))])
    case (WaitFont, Packet(bytes)) =>
      var pin := DecodeFont(bytes);
      (p.(me := p.me.(session := pin.session), heard := p.heard.(font := pin),
          state := Connected, connections := p.connections + 1), [])
    case (WaitColorFont, Packet(bytes)) =>
      var pin := DecodeColorFont(bytes);
      (p.(heard := Heard(pin.uin, pin.name, pin.fore, pin.back, pin.font), clients := pin.clients,
          saidFont := p.me, state := Connected, connections := p.connections + 1),
       [Framed(FontData(p.me))])
    case (Connected, Raw(bytes)) => (p.(raw := p.raw + [bytes]), [])
    case _ => (p.(misread := true), [])
  }

  /** The asker sends its Color packet; the answerer replies with ColorFont. */
  datatype System = System(asker: Peer, answerer: Peer, toAsker: seq<Item>, toAnswerer: seq<Item>)

  datatype Action =
    | AskerReads
    | AnswererReads
    | AskerTypes(bytes: seq<Byte>)
    | AnswererTypes(bytes: seq<Byte>)
    | AskerChanges(settings: Settings)
    | AnswererChanges(settings: Settings)

  // SendBuffer_Raw and SendBufferToClient skip a user that is not connected.
  function Types(p: Peer, bytes: seq<Byte>): seq<Item> {
    if p.state == Connected then [Raw(bytes)] else []
  }

  predicate Possible(s: System, a: Action) {
    match a
    case AskerReads => s.toAsker != []
    case AnswererReads => s.toAnswerer != []
    case AskerTypes(_) => true
    case AnswererTypes(_) => true
    case AskerChanges(settings) => Packable(settings, |s.asker.others|)
    case AnswererChanges(settings) => Packable(settings, |s.answerer.others|)
  }

  function Apply(s: System, a: Action): (t: System)
    ensures t.asker.others == s.asker.others && t.answerer.others == s.answerer.others
  {
    if !Possible(s, a) then s
    else
      match a
      case AskerReads =>
        var (p, out) := Reads(s.asker, s.toAsker[0]);
        System(p, s.answerer, s.toAsker[1..], s.toAnswerer + out)
      case AnswererReads =>
        var (p, out) := Reads(s.answerer, s.toAnswerer[0]);
        System(s.asker, p, s.toAsker + out, s.toAnswerer[1..])
      case AskerTypes(bytes) => s.(toAnswerer := s.toAnswerer + Types(s.asker, bytes))
      case AnswererTypes(bytes) => s.(toAsker := s.toAsker + Types(s.answerer, bytes))
      case AskerChanges(settings) => s.(asker := s.asker.(me := settings))
      case AnswererChanges(settings) => s.(answerer := s.answerer.(me := settings))
  }

  function RunAll(s: System, actions: seq<Action>): (t: System)
    ensures t.asker.others == s.asker.others && t.answerer.others == s.answerer.others
    decreases |actions|
  {
    if actions == [] then s else Apply(RunAll(s, actions[..|actions| - 1]), actions[|actions| - 1])
  }

  function FreshPeer(state: State, me: Settings, pending: bool, others: seq<Client>): Peer {
    var nothing := FontPacket(0, 0, 0, 0, [], 0, 0);
    Peer(state, me, pending, others, me, me,
      Heard(0, [], Color(0, 0, 0), Color(0xFF, 0xFF, 0xFF), nothing), [], [], 0, false)
  }

  /** Direct: the asker connects (SendChatHandshake) and pending is false at the
      answerer. Reverse: the answerer connects (AcceptReverseConnection) and the
      asker finds its request pending. */
  function Initial(direct: bool, a: Settings, b: Settings, others: seq<Client>): System {
    if direct then
      var (asker, color) := SendColor(FreshPeer(WaitHandshake, a, false, []));
      System(asker, FreshPeer(WaitHandshake, b, false, others), [], [Shake] + color)
    else
      System(FreshPeer(WaitHandshake, a, true, []), FreshPeer(WaitColor, b, false, others), [Shake], [])
  }

  // ----- the invariant -----

  predicate AllRaw(items: seq<Item>) {
    forall i | i in items :: i.Raw?
  }

  predicate HearsColors(h: Heard, said: Settings) {
    h.name == CStr(said.name) + [0] && h.fore == said.fore && h.back == Swapped(said.back)
  }

  predicate SaneEnd(p: Peer) {
    var n := |p.others|;
    Packable(p.me, n) && Packable(p.saidColors, n) && Packable(p.saidFont, n)
  }

  predicate Settled(s: System) {
    && !s.asker.misread && !s.answerer.misread
    && SaneEnd(s.asker) && SaneEnd(s.answerer)
  }

  // Nothing has come of the connection yet.
  predicate Shaking(s: System) {
    || (s.asker.state == WaitColorFont && s.answerer.state == WaitHandshake && !s.answerer.pending
        && s.toAsker == [] && s.toAnswerer == [Shake, Framed(EncodeColor(s.asker.saidColors))])
    || (s.asker.state == WaitHandshake && s.asker.pending && s.answerer.state == WaitColor
        && s.toAsker == [Shake] && s.toAnswerer == [])
  }

  predicate ColorSent(s: System) {
    && s.asker.state == WaitColorFont && s.answerer.state == WaitColor
    && s.toAsker == [] && s.toAnswerer == [Framed(EncodeColor(s.asker.saidColors))]
  }

  predicate ColorFontSent(s: System) {
    && s.asker.state == WaitColorFont && s.answerer.state == WaitFont
    && HearsColors(s.answerer.heard, s.asker.saidColors) && s.answerer.saidFont == s.answerer.saidColors
    && s.toAsker == [Framed(EncodeColorFont(s.answerer.saidColors, s.answerer.others))] && s.toAnswerer == []
  }

  predicate AskerHasHeard(s: System) {
    && HearsColors(s.asker.heard, s.answerer.saidColors) && s.asker.heard.font == FontOf(s.answerer.saidFont)
    && s.asker.heard.uin == s.answerer.saidColors.uin && s.asker.clients == ClientsHeard(s.answerer.others)
  }

  // The asker is connected; its font, and whatever it types, is on the way.
  predicate FontSent(s: System) {
    && s.asker.state == Connected && s.answerer.state == WaitFont
    && HearsColors(s.answerer.heard, s.asker.saidColors) && AskerHasHeard(s)
    && s.toAsker == [] && s.toAnswerer != [] && s.toAnswerer[0] == Framed(EncodeFont(s.asker.saidFont))
    && AllRaw(s.toAnswerer[1..])
  }

  predicate BothConnected(s: System) {
    && s.asker.state == Connected && s.answerer.state == Connected
    && HearsColors(s.answerer.heard, s.asker.saidColors) && s.answerer.heard.font == FontOf(s.asker.saidFont)
    && AskerHasHeard(s)
    && AllRaw(s.toAsker) && AllRaw(s.toAnswerer)
  }

  function Connections(state: State): nat {
    if state == Connected then 1 else 0
  }

  predicate Inv(s: System) {
    && Settled(s)
    && s.asker.connections == Connections(s.asker.state) && s.answerer.connections == Connections(s.answerer.state)
    && (Shaking(s) || ColorSent(s) || ColorFontSent(s) || FontSent(s) || BothConnected(s))
  }

  // ----- every step keeps it -----

  lemma ShakeIsRead(s: System, a: Action)
    requires Inv(s) && Shaking(s) && Possible(s, a) && (a.AskerReads? || a.AnswererReads?)
    ensures Inv(Apply(s, a))
  {
    hide EncodeColor, EncodeColorFont, EncodeFont, DecodeColor, DecodeColorFont, DecodeFont, CStr, FontOf, ColorData,
      FontData, ColorFontData, HearsColors, AskerHasHeard, Packable, FontSent, BothConnected, ColorFontSent, Framed;
    PackableIsWhole(s.asker.me, s.asker.others);
    var t := Apply(s, a);
    assert ColorSent(t);
  }

  lemma ColorIsRead(s: System)
    requires Inv(s) && ColorSent(s)
    ensures Inv(Apply(s, AnswererReads))
  {
    hide EncodeColor, EncodeColorFont, EncodeFont, DecodeColor, DecodeColorFont, DecodeFont, CStr, FontOf, LengthOf, Le16,
      ColorData, FontData, ColorFontData;
    PackableIsWhole(s.answerer.me, s.answerer.others);
    var said := s.asker.saidColors;
    ColorRoundTrip(said, LengthOf(EncodeColor(said)));
    assert ColorFontSent(Apply(s, AnswererReads));
  }

  lemma ColorFontIsRead(s: System)
    requires Inv(s) && ColorFontSent(s)
    ensures Inv(Apply(s, AskerReads))
  {
    hide EncodeColor, EncodeColorFont, EncodeFont, DecodeColor, DecodeColorFont, DecodeFont, CStr, FontOf, LengthOf, Le16,
      ColorData, FontData, ColorFontData, ClientsHeard;
    PackableIsWhole(s.asker.me, s.asker.others);
    var said, others := s.answerer.saidColors, s.answerer.others;
    ColorFontRoundTrip(said, others, LengthOf(EncodeColorFont(said, others)));
    assert FontSent(Apply(s, AskerReads));
  }

  lemma FontIsRead(s: System)
    requires Inv(s) && FontSent(s)
    ensures Inv(Apply(s, AnswererReads))
  {
    hide EncodeColor, EncodeColorFont, EncodeFont, DecodeColor, DecodeColorFont, DecodeFont, CStr, FontOf, LengthOf, Le16;
    var said := s.asker.saidFont;
    FontRoundTrip(said, LengthOf(EncodeFont(said)));
    assert BothConnected(Apply(s, AnswererReads));
  }

  lemma RawIsRead(s: System, a: Action)
    requires Inv(s) && BothConnected(s) && Possible(s, a) && (a.AskerReads? || a.AnswererReads?)
    ensures Inv(Apply(s, a))
  {
    hide EncodeColor, EncodeColorFont, EncodeFont, DecodeColor, DecodeColorFont, DecodeFont, CStr, FontOf, ColorData,
      FontData, ColorFontData, HearsColors, Framed, ClientsHeard, Packable;
    var t := Apply(s, a);
    var read := if a.AskerReads? then s.toAsker else s.toAnswerer;
    assert read[0] in read;
    assert forall i :: i in read[1..] ==> i in read;
    assert BothConnected(t);
  }

  lemma TypingAndChanging(s: System, a: Action)
    requires Inv(s) && Possible(s, a) && !a.AskerReads? && !a.AnswererReads?
    ensures Inv(Apply(s, a))
  {
    hide EncodeColor, EncodeColorFont, EncodeFont, CStr, FontOf, Swapped, HearsColors, Framed, ClientsHeard, Packable, Reads;
    var t := Apply(s, a);
    if a.AskerTypes? && s.asker.state == Connected {
      assert s.toAnswerer != [] ==> t.toAnswerer[0] == s.toAnswerer[0];
      if FontSent(s) {
        assert t.toAnswerer[1..] == s.toAnswerer[1..] + [Raw(a.bytes)];
      }
    }
    if Shaking(s) { assert Shaking(t); }
    else if ColorSent(s) { assert ColorSent(t); }
    else if ColorFontSent(s) { assert ColorFontSent(t); }
    else if FontSent(s) { assert FontSent(t); }
    else { assert BothConnected(t); }
  }

  lemma StepKeepsInv(s: System, a: Action)
    requires Inv(s)
    ensures Inv(Apply(s, a))
  {
    hide EncodeColor, EncodeColorFont, EncodeFont, DecodeColor, DecodeColorFont, DecodeFont, CStr, FontOf, Reads;
    if Possible(s, a) {
      if !a.AskerReads? && !a.AnswererReads? {
        TypingAndChanging(s, a);
      } else if Shaking(s) {
        ShakeIsRead(s, a);
      } else if ColorSent(s) {
        ColorIsRead(s);
      } else if ColorFontSent(s) {
        ColorFontIsRead(s);
      } else if FontSent(s) {
        FontIsRead(s);
      } else {
        RawIsRead(s, a);
      }
    }
  }

  predicate Startable(a: Settings, b: Settings, others: seq<Client>) {
    Packable(a, 0) && Packable(b, |others|)
  }

  lemma {:induction false} RunKeepsInv(direct: bool, a: Settings, b: Settings, others: seq<Client>, actions: seq<Action>)
    requires Startable(a, b, others)
    ensures Inv(RunAll(Initial(direct, a, b, others), actions))
    decreases |actions|
  {
    hide EncodeColor, EncodeColorFont, EncodeFont, Apply, ColorData, FontData, ColorFontData;
    PackableIsWhole(a, []);
    if actions == [] {
      assert Shaking(Initial(direct, a, b, others));
    } else {
      RunKeepsInv(direct, a, b, others, actions[..|actions| - 1]);
      hide Inv;
      StepKeepsInv(RunAll(Initial(direct, a, b, others), actions[..|actions| - 1]), actions[|actions| - 1]);
    }
  }

  // ----- the theorems -----

  /** What stands at the head of an end's channel is what its state parses: the
      handshake of the connection, the very packet its state waits for, built from what
      the other end says it built it from, or raw bytes. */
  predicate Suits(head: Item, reader: Peer, writer: Peer) {
    match reader.state
    case WaitHandshake => head == Shake
    case WaitColor => head == Framed(EncodeColor(writer.saidColors))
    case WaitColorFont => head == Framed(EncodeColorFont(writer.saidColors, writer.others))
    case WaitFont => head == Framed(EncodeFont(writer.saidFont))
    case Connected => head.Raw?
  }

  /** In every interleaving the head of each channel is exactly what its reader's state
      parses, so a packet never meets the wrong parser, nor raw chat bytes an end that
      is not connected; and as long as not both are connected, something is on the way
      to an end that will read it. */
  lemma HandshakeIsSafe(direct: bool, a: Settings, b: Settings, others: seq<Client>, actions: seq<Action>)
    requires Startable(a, b, others)
    ensures var s := RunAll(Initial(direct, a, b, others), actions);
      && (s.toAsker != [] ==> Suits(s.toAsker[0], s.asker, s.answerer))
      && (s.toAnswerer != [] ==> Suits(s.toAnswerer[0], s.answerer, s.asker))
      && !s.asker.misread && !s.answerer.misread && s.answerer.others == others
      && ((s.asker.state == Connected && s.answerer.state == Connected) || s.toAsker != [] || s.toAnswerer != [])
  {
    hide RunAll, Inv, Suits;
    RunKeepsInv(direct, a, b, others, actions);
    InvSuits(RunAll(Initial(direct, a, b, others), actions));
  }

  lemma InvSuits(s: System)
    requires Inv(s)
    ensures s.toAsker != [] ==> Suits(s.toAsker[0], s.asker, s.answerer)
    ensures s.toAnswerer != [] ==> Suits(s.toAnswerer[0], s.answerer, s.asker)
    ensures !s.asker.misread && !s.answerer.misread
    ensures (s.asker.state == Connected && s.answerer.state == Connected) || s.toAsker != [] || s.toAnswerer != []
  {
    hide EncodeColor, EncodeColorFont, EncodeFont, Framed, HearsColors, AskerHasHeard, SaneEnd, FontOf;
  }

  /** Once both are connected each end holds the name, colours and font of the
      packets the other packed: names with their NUL, and the background with
      green and blue exchanged. The asker also has the answerer's whole list of other
      participants if and only if it has fewer than 128, and each end has announced
      the connection once. */
  lemma HandshakeTransfers(direct: bool, a: Settings, b: Settings, others: seq<Client>, actions: seq<Action>)
    requires Startable(a, b, others)
    requires var s := RunAll(Initial(direct, a, b, others), actions);
      s.asker.state == Connected && s.answerer.state == Connected
    ensures var s := RunAll(Initial(direct, a, b, others), actions);
      && HearsColors(s.asker.heard, s.answerer.saidColors) && HearsColors(s.answerer.heard, s.asker.saidColors)
      && s.asker.heard.font == FontOf(s.answerer.saidFont) && s.answerer.heard.font == FontOf(s.asker.saidFont)
      && s.asker.heard.uin == s.answerer.saidColors.uin && (s.asker.clients == others <==> |others| < 0x80)
      && s.asker.connections == s.answerer.connections == 1
  {
    RunKeepsInv(direct, a, b, others, actions);
    ClientsArriveIff(others);
    hide EncodeColor, EncodeColorFont, EncodeFont, ClientsHeard;
  }

  /** A background colour survives the handshake exactly when its green equals its blue. */
  lemma BackgroundSurvivesIff(h: Heard, said: Settings)
    requires HearsColors(h, said)
    ensures h.back == said.back <==> said.back.green == said.back.blue
  {}

  // ----- exactly one end has to ask -----

  /** A connector and an acceptor that may both think, or neither, that they asked.
      Field asker holds the connector here, answerer the acceptor. */
  function Mispaired(both: bool, connector: Settings, acceptor: Settings): System {
    var y := FreshPeer(WaitHandshake, acceptor, both, []);
    if both then
      var (x, color) := SendColor(FreshPeer(WaitHandshake, connector, false, []));
      System(x, y, [], [Shake] + color)
    else
      System(FreshPeer(WaitColor, connector, false, []), y, [], [Shake])
  }

  /** An acceptor that finds a request of its own pending for a peer that connects to
      ask makes both send Color and both read it as ColorFont: each takes the protocol
      version it finds in the packet for the other's UIN, and both are connected. */
  lemma BothAskIsGarbled(connector: Settings, acceptor: Settings)
    requires Packable(connector, 0) && Packable(acceptor, 0)
    ensures var s := Apply(Apply(Apply(Mispaired(true, connector, acceptor), AnswererReads), AskerReads), AnswererReads);
      && s.asker.state == Connected && s.asker.heard.uin == 0xFFFF_FFF8
      && s.answerer.state == Connected && s.answerer.heard.uin == 0xFFFF_FFF8
  {
    hide EncodeColor, EncodeFont, EncodeColorFont, DecodeColor, DecodeFont, DecodeColorFont, Le16, LengthOf,
      ColorData, FontData, ColorFontData;
    PackableIsWhole(connector, []);
    PackableIsWhole(acceptor, []);
    ColorReadAsColorFont(acceptor, LengthOf(EncodeColor(acceptor)));
    ColorReadAsColorFont(connector, LengthOf(EncodeColor(connector)));
    var s := Apply(Mispaired(true, connector, acceptor), AnswererReads);
    assert s.toAsker == [Framed(EncodeColor(acceptor))];
    assert s.toAnswerer == [Framed(EncodeColor(connector))];
  }

  lemma ColorReadAsColorFont(s: Settings, length: UInt16)
    ensures DecodeColorFont(Le16(length) + EncodeColor(s)).uin == 0xFFFF_FFF8
  {
    hide Le16, Le32, U16, U32, PackedString, Be16, ColorBytes, ReadFont, ReadClients, ShortString, Rgb;
    var r2 := Le32(s.uin) + (PackedString(s.name) + (Be16(s.port) + (ColorBytes(s.fore, Swapped(s.back)) + [0])));
    ReadsU16(length, EncodeColor(s));
    ReadsU32(0x65, Le32(0xFFFF_FFF8) + r2);
    ReadsU32(0xFFFF_FFF8, r2);
  }

  /** If neither asks, both wait for a Color packet that nobody sends, whatever happens. */
  lemma {:induction false} NobodyAsksIsStuck(connector: Settings, acceptor: Settings, actions: seq<Action>)
    ensures var s := RunAll(Mispaired(false, connector, acceptor), actions);
      && s.asker.state == WaitColor && s.toAsker == []
      && ((s.answerer.state == WaitColor && s.toAnswerer == []) ||
          (s.answerer.state == WaitHandshake && !s.answerer.pending && s.toAnswerer == [Shake]))
    decreases |actions|
  {
    hide EncodeColor, EncodeFont, EncodeColorFont, DecodeColor, DecodeColorFont, DecodeFont, ColorData, FontData,
      ColorFontData;
    if actions != [] {
      NobodyAsksIsStuck(connector, acceptor, actions[..|actions| - 1]);
    }
  }

  /** The answerer takes the session number of the Font packet for its own; nothing else of its
      settings changes. */
  lemma SessionIsTaken(direct: bool, a: Settings, b: Settings, others: seq<Client>, actions: seq<Action>)
    requires Startable(a, b, others)
    requires var s := RunAll(Initial(direct, a, b, others), actions); s.answerer.state == WaitFont && s.toAnswerer != []
    ensures var s := RunAll(Initial(direct, a, b, others), actions);
      Apply(s, AnswererReads).answerer.me == s.answerer.me.(session := s.asker.saidFont.session)
  {
    RunKeepsInv(direct, a, b, others, actions);
    hide *;
    FontIsTaken(RunAll(Initial(direct, a, b, others), actions));
  }

  lemma FontIsTaken(s: System)
    requires Inv(s) && s.answerer.state == WaitFont && s.toAnswerer != []
    ensures Apply(s, AnswererReads).answerer.me == s.answerer.me.(session := s.asker.saidFont.session)
  {
    var said := s.asker.saidFont;
    InvSuits(s);
    hide *;
    var packet := Le16(LengthOf(EncodeFont(said))) + EncodeFont(said);
    FontRoundTrip(said, LengthOf(EncodeFont(said)));
    SessionOfFont(said);
    FontIsExpected(s.toAnswerer[0], s.answerer, s.asker);
    FontIsApplied(s, packet);
  }

  lemma FontIsExpected(head: Item, reader: Peer, writer: Peer)
    requires reader.state == WaitFont && Suits(head, reader, writer)
    ensures head == Packet(Le16(LengthOf(EncodeFont(writer.saidFont))) + EncodeFont(writer.saidFont))
  {
    hide EncodeFont, LengthOf, Le16;
  }

  lemma FontIsApplied(s: System, packet: seq<Byte>)
    requires s.answerer.state == WaitFont && s.toAnswerer != [] && s.toAnswerer[0] == Packet(packet)
    ensures Apply(s, AnswererReads).answerer.me == s.answerer.me.(session := DecodeFont(packet).session)
  {
    hide DecodeFont;
  }

  lemma SessionOfFont(said: Settings)
    ensures FontOf(said).session == said.session
  {}
}
