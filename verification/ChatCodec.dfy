/**
 The senders of a chat (icq/src/chat.cpp:1935-2220) against the parser: what
 SendBufferToClient and SendBuffer_Raw put on the wire, and what the peer's
 parser recovers from it.
 */
module ChatCodec {
  import opened Bytes
  import opened ChatStream
  import opened ChatChunks
  import opened Sequences

  /** What a chat window can say to its peers. */
  datatype Message =
    | Typed(run: seq<Byte>)
    | Newline
    | Backspace
    | Beep
    | Laugh
    | ColorFg(fore: Color)
    | ColorBg(back: Color)
    | FontFamily(name: seq<Byte>, encoding: Byte, style: Byte)
    | FontSize(points: UInt16)
    | FontFace(bold: bool, italic: bool, underline: bool, strikeOut: bool)
    | Focus(gained: bool)
    | Sleep(on: bool)
    | Kick(uin: UInt32)
    | KickFailed(uin: UInt32, yes: Byte, no: Byte)
    | KickedByVote(uin: UInt32, yes: Byte, no: Byte)
    | KickedWithoutVote
    | LeftAsKicked

  function FaceBits(bold: bool, italic: bool, underline: bool, strikeOut: bool): (n: UInt32)
    ensures n < 16
  {
    (if bold then 1 else 0) + (if italic then 2 else 0) + (if underline then 4 else 0) + (if strikeOut then 8 else 0)
  }

  // ----- what goes on the wire -----

  function Code(m: Message): Byte
    requires !m.Typed?
  {
    match m
    case Newline => NEWLINE
    case Backspace => BACKSPACE
    case Beep => BEEP
    case Laugh => LAUGH
    case ColorFg(_) => COLOR_FG
    case ColorBg(_) => COLOR_BG
    case FontFamily(_, _, _) => FONT_FAMILY
    case FontSize(_) => FONT_SIZE
    case FontFace(_, _, _, _) => FONT_FACE
    case Focus(gained) => if gained then FOCUS_IN else FOCUS_OUT
    case Sleep(on) => if on then SLEEP_ON else SLEEP_OFF
    case Kick(_) => KICK
    case KickFailed(_, _, _) => KICK_FAIL
    case KickedByVote(_, _, _) => KICK_YOU
    case KickedWithoutVote => KICK_YOU
    case LeftAsKicked => DISCONNECTION_KICKED
  }

  function Payload(m: Message): seq<Byte> {
    match m
    case ColorFg(c) => [c.red, c.green, c.blue, 0]
    case ColorBg(c) => [c.red, c.green, c.blue, 0]
    case FontFamily(name, encoding, style) => PackedString(name) + [encoding, style]
    case FontSize(points) => Le32(points)
    case FontFace(b, i, u, s) => Le32(FaceBits(b, i, u, s))
    case Kick(uin) => Le32(uin)
    case KickFailed(uin, yes, no) => Le32(uin) + [yes, no]
    case KickedByVote(uin, yes, no) => Le32(uin) + [yes, no]
    case KickedWithoutVote => [2, 1]
    case _ => []
  }

  // SendBufferToClient packs into 128 bytes; a payload that does not fit behind
  // its header is dropped and the header goes out alone.
  const CLIENT_BUFFER := 128

  function Header(d: Dialect, code: Byte, size: nat): seq<Byte> {
    if d == V6 then [0, code] + Le32(Declared(code, size)) else [code]
  }

  // The size a v6 header declares: of a font family it includes the following character.
  function Declared(code: Byte, size: nat): (n: UInt32)
    ensures size < 0xFFFF_FFFF ==> n == size + if code == FONT_FAMILY then 1 else 0
  {
    (size + if code == FONT_FAMILY then 1 else 0) % 0x1_0000_0000
  }

  function Framed(d: Dialect, code: Byte, payload: seq<Byte>): seq<Byte> {
    var header := Header(d, code, |payload|);
    if |header| + |payload| <= CLIENT_BUFFER then header + payload else header
  }

  function Wire(d: Dialect, m: Message): seq<Byte> {
    if m.Typed? then m.run
    else if m.Newline? || m.Backspace? then [Code(m)]
    else Framed(d, Code(m), Payload(m))
  }

  function WireAll(d: Dialect, ms: seq<Message>): seq<Byte> {
    if ms == [] then [] else Wire(d, ms[0]) + WireAll(d, ms[1..])
  }

  // ----- what a peer should make of it -----

  function Heard(m: Message, l: Looks): Looks {
    match m
    case Typed(run) => l.(line := l.line + run)
    case Newline => l.(line := [])
    case Backspace => l.(line := if l.line == [] then [] else l.line[..|l.line| - 1])
    case ColorFg(c) => l.(fore := c)
    case ColorBg(c) => l.(back := c)
    // the packed string carries its terminating NUL into the received name
    case FontFamily(name, encoding, style) =>
      l.(family := Text(CStr(name) + [0], l.encoding), encoding := encoding, style := style)
    case FontSize(points) => l.(size := points)
    case FontFace(b, i, u, s) => l.(face := FaceBits(b, i, u, s))
    case Focus(gained) => l.(focus := gained)
    case Sleep(on) => l.(sleep := on)
    case Kick(uin) => l.(toKick := SignExtended(uin))
    case _ => l
  }

  function Reported(m: Message, l: Looks): Event {
    match m
    case Typed(run) => Event(CHARACTER, Text(run, l.encoding))
    case Newline => Event(NEWLINE, Text(l.line, l.encoding))
    case _ => Event(Code(m), NOTHING)
  }

  function After(u: User, m: Message, rest: seq<Byte>): User {
    User(rest, Heard(m, u.looks), u.events + [Reported(m, u.looks)], u.astray)
  }

  function AfterAll(u: User, ms: seq<Message>, rest: seq<Byte>): User
    decreases |ms|
  {
    if ms == [] then u.(queue := rest) else AfterAll(After(u, ms[0], rest), ms[1..], rest)
  }

  /** What the senders can be asked to say so that it arrives: text without
      control characters, font names that fit the 128-byte buffer, and to a v2 peer no
      kick (its parser reads the UIN one byte early) and no outcome of one (it takes
      fewer bytes off the queue than are sent). */
  predicate Sendable(d: Dialect, m: Message) {
    match m
    case Typed(run) => run != [] && forall b | b in run :: !IsControl(b)
    case FontFamily(name, _, _) => |CStr(name)| <= (if d == V6 then 117 else 122)
    case Kick(_) => d == V6
    case KickFailed(_, _, _) => d == V6
    case KickedByVote(_, _, _) => d == V6
    case KickedWithoutVote => d == V6
    case _ => true
  }

  // A v6 font family is processed only once the byte after its frame is there.
  predicate NeedsFollower(d: Dialect, m: Message) {
    d == V6 && m.FontFamily?
  }

  // ----- one message -----

  lemma RunLengthOfText(run: seq<Byte>, rest: seq<Byte>)
    requires forall b | b in run :: !IsControl(b)
    ensures RunLength(run + rest) >= |run|
  {
    assert forall i :: 0 <= i < |run| ==> (run + rest)[i] in run;
  }

  lemma FamilyPayload(name: seq<Byte>, encoding: Byte, style: Byte)
    requires |CStr(name)| < 0xFFFF
    ensures var p := Payload(FontFamily(name, encoding, style));
      && |p| == |CStr(name)| + 5 && FromLe16(p) == |CStr(name)| + 1
      && p[2..|p| - 2] == CStr(name) + [0] && p[|p| - 2] == encoding && p[|p| - 1] == style
  {
    hide CStr, Le16, PackedLength;
    var size, body := Le16(PackedLength(name)), CStr(name) + [0];
    var p := Payload(FontFamily(name, encoding, style));
    Assoc(size, CStr(name), [0]);
    ThreeParts(size, body, [encoding, style]);
    assert p == size + body + [encoding, style];
    assert p[0] == p[..2][0] && p[1] == p[..2][1];
    assert p[|p| - 2] == p[|p| - 2..][0] && p[|p| - 1] == p[|p| - 2..][1];
  }

  lemma FamilyIsRead(m: Message, l: Looks)
    requires m.FontFamily? && |CStr(m.name)| < 0xFFFF
    ensures |Payload(m)| == NeededPayload(FONT_FAMILY, Payload(m))
    ensures CommandLooks(FONT_FAMILY, Payload(m), l) == Heard(m, l)
  {
    FamilyPayload(m.name, m.encoding, m.style);
    hide Payload, CStr, FromLe16;
  }

  lemma PayloadFits(d: Dialect, m: Message)
    requires !m.Typed? && !m.Newline? && !m.Backspace? && Sendable(d, m)
    ensures |Header(d, Code(m), |Payload(m)|)| + |Payload(m)| <= CLIENT_BUFFER
  {
    hide Le32, Declared, PackedString, FaceBits, FromLe32, FromLe16;
  }

  lemma PayloadIsRead(d: Dialect, m: Message, l: Looks)
    requires !m.Typed? && !m.Newline? && !m.Backspace? && Sendable(d, m)
    ensures |Payload(m)| >= NeededPayload(Code(m), Payload(m))
    ensures Code(m) == FONT_FAMILY ==> |Payload(m)| == NeededPayload(Code(m), Payload(m))
    ensures CommandLooks(Code(m), Payload(m), l) == Heard(m, l)
    ensures Announced(Code(m)) && !IsVerdict(Code(m)) && |Header(d, Code(m), |Payload(m)|)| + |Payload(m)| <= CLIENT_BUFFER
  {
    PayloadFits(d, m);
    CodeIsAnnounced(m);
    hide Announced, IsVerdict, Header;
    PayloadIsHeard(d, m, l);
  }

  lemma CodeIsAnnounced(m: Message)
    requires !m.Typed? && !m.Newline? && !m.Backspace?
    ensures Announced(Code(m)) && !IsVerdict(Code(m))
  {}

  lemma PayloadIsHeard(d: Dialect, m: Message, l: Looks)
    requires !m.Typed? && !m.Newline? && !m.Backspace? && Sendable(d, m)
    ensures |Payload(m)| >= NeededPayload(Code(m), Payload(m))
    ensures Code(m) == FONT_FAMILY ==> |Payload(m)| == NeededPayload(Code(m), Payload(m))
    ensures CommandLooks(Code(m), Payload(m), l) == Heard(m, l)
  {
    hide Le32, FromLe32, FromLe16, PackedString, CStr, FaceBits;
    match m {
      case FontFamily(_, _, _) => FamilyIsRead(m, l);
      case _ =>
    }
  }

  lemma RawFrameV6(code: Byte, size: nat, p: seq<Byte>, rest: seq<Byte>)
    requires |p| < 0x1_0000 && |p| >= NeededPayload(code, p) && !IsVerdict(code)
    requires size == |p| + if code == FONT_FAMILY then 1 else 0
    requires code == FONT_FAMILY ==> rest != [] && |p| == NeededPayload(code, p)
    ensures HeadV6(([0, code] + Le32(size)) + (p + rest)) == Command(code, p, 6 + |p|)
  {
    var q := ([0, code] + Le32(size)) + (p + rest);
    assert q[2..6] == Le32(size);
    assert q[6..6 + |p|] == p;
    assert q[6..6 + size] == p + rest[..size - |p|];
    NeededOfMore(code, p, rest[..size - |p|]);
    hide NeededPayload;
  }

  // The name length stands in front.
  lemma NeededOfMore(code: Byte, p: seq<Byte>, more: seq<Byte>)
    requires |p| >= NeededPayload(code, p)
    ensures NeededPayload(code, p + more) == NeededPayload(code, p)
  {}

  lemma HeadOfFrameV6(m: Message, rest: seq<Byte>)
    requires !m.Typed? && !m.Newline? && !m.Backspace? && Sendable(V6, m)
    requires m.FontFamily? ==> rest != []
    ensures HeadV6(Wire(V6, m) + rest) == Command(Code(m), Payload(m), |Wire(V6, m)|)
  {
    hide HeadV6, Le32, Payload, Declared, NeededPayload, FromLe32, CommandLooks, Heard, CStr;
    var l: Looks :| true;
    PayloadIsRead(V6, m, l);
    var p := Payload(m);
    var size := |p| + if m.FontFamily? then 1 else 0;
    RawFrameV6(Code(m), size, p, rest);
    Assoc(Header(V6, Code(m), |p|), p, rest);
  }

  lemma RawFrameV2(code: Byte, p: seq<Byte>, rest: seq<Byte>)
    requires |p| < 0xFFFF && |p| >= NeededPayload(code, p) && !IsVerdict(code)
    requires code == FONT_FAMILY ==> |p| == NeededPayload(code, p)
    requires LengthV2([code] + p) == 1 + |p|
    requires code != NEWLINE && code != BACKSPACE && code != KICK
    ensures HeadV2([code] + (p + rest)) == Command(code, p, 1 + |p|)
  {
    var q := [code] + (p + rest);
    assert q[1..1 + |p|] == p;
    if code == FONT_FAMILY {
      assert q[1] == p[0] && q[2] == p[1];
    }
  }

  lemma HeadOfFrameV2(m: Message, rest: seq<Byte>)
    requires !m.Typed? && !m.Newline? && !m.Backspace? && Sendable(V2, m)
    ensures HeadV2(Wire(V2, m) + rest) == Command(Code(m), Payload(m), |Wire(V2, m)|)
  {
    var l: Looks :| true;
    PayloadIsRead(V2, m, l);
    LengthOfFrameV2(m);
    hide HeadV2, Payload, NeededPayload, LengthV2;
    RawFrameV2(Code(m), Payload(m), rest);
    Assoc([Code(m)], Payload(m), rest);
  }

  lemma LengthOfFrameV2(m: Message)
    requires !m.Typed? && !m.Newline? && !m.Backspace? && Sendable(V2, m)
    ensures LengthV2([Code(m)] + Payload(m)) == 1 + |Payload(m)|
    ensures m.FontFamily? ==> |Payload(m)| == NeededPayload(Code(m), Payload(m))
  {
    hide CStr, Le16, Le32, PackedString;
    if m.FontFamily? {
      FamilyPayload(m.name, m.encoding, m.style);
      hide Payload;
      var p := Payload(m);
      var q := [FONT_FAMILY] + p;
      assert q[1..3] == p[..2];
    }
  }

  /** A sendable message at the head of the queue is taken off it and heard as it was meant. */
  lemma MessageIsHeard(d: Dialect, u: User, m: Message, rest: seq<Byte>)
    requires Sendable(d, m) && !u.astray && u.queue == Wire(d, m) + rest
    requires NeedsFollower(d, m) ==> rest != []
    ensures Run(d, false, Exploded(u)) == Run(d, false, Exploded(After(u, m, rest)))
  {
    hide HeadOf, Payload, Singles, CommandLooks;
    var w := Exploded(u);
    ExplodeConcat(u.events, [Reported(m, u.looks)]);
    ExplodeOne(Reported(m, u.looks));
    if m.Typed? {
      RunLengthOfText(m.run, rest);
      TextByText(d, w, |m.run|);
      TakeInLeft(m.run, rest, |m.run|);
      DropInLeftAll(m.run, rest);
      assert Exploded(After(u, m, rest)) == AfterText(w, |m.run|);
    } else {
      SinglesOfOther(Reported(m, u.looks));
      CommandIsHeard(d, w, m, rest);
      assert Exploded(After(u, m, rest)) == After(w, m, rest);
    }
  }

  lemma CommandIsHeard(d: Dialect, u: User, m: Message, rest: seq<Byte>)
    requires Sendable(d, m) && !m.Typed? && !u.astray && u.queue == Wire(d, m) + rest
    requires NeedsFollower(d, m) ==> rest != []
    ensures !Waits(d, u) && Step(d, false, u) == After(u, m, rest)
  {
    hide HeadOf, Payload, CommandLooks;
    HeadsOfMessages(d, m, rest);
    DropInLeftAll(Wire(d, m), rest);
    if !m.Newline? && !m.Backspace? {
      PayloadIsRead(d, m, u.looks);
    }
  }

  function HeadOfMessage(d: Dialect, m: Message, rest: seq<Byte>): Head
    requires !m.Typed?
  {
    if m.Newline? || m.Backspace? then Key(Code(m)) else Command(Code(m), Payload(m), |Wire(d, m)|)
  }

  lemma HeadsOfMessages(d: Dialect, m: Message, rest: seq<Byte>)
    requires Sendable(d, m) && !m.Typed?
    requires NeedsFollower(d, m) ==> rest != []
    ensures HeadOf(d, Wire(d, m) + rest) == HeadOfMessage(d, m, rest)
  {
    if !m.Newline? && !m.Backspace? {
      if d == V6 {
        HeadOfFrameV6(m, rest);
      } else {
        HeadOfFrameV2(m, rest);
      }
    }
  }

  lemma SinglesOfOther(e: Event)
    requires e.command != CHARACTER
    ensures Singles(e) == [e]
  {}

  lemma DropInLeftAll<T>(a: seq<T>, b: seq<T>)
    ensures (a + b)[|a|..] == b && |a + b| == |a| + |b|
  {}

  predicate AllSendable(d: Dialect, ms: seq<Message>) {
    forall m | m in ms :: Sendable(d, m)
  }

  predicate EndsPending(d: Dialect, ms: seq<Message>) {
    ms != [] && NeedsFollower(d, ms[|ms| - 1])
  }

  lemma {:induction false} MessagesAreHeard(d: Dialect, u: User, ms: seq<Message>, rest: seq<Byte>)
    requires AllSendable(d, ms) && !u.astray && u.queue == WireAll(d, ms) + rest
    requires EndsPending(d, ms) ==> rest != []
    ensures Run(d, false, Exploded(u)) == Run(d, false, Exploded(AfterAll(u, ms, rest)))
    decreases |ms|
  {
    hide Run, Wire, Payload;
    if ms == [] {
      assert u.queue == rest;
      assert AfterAll(u, ms, rest) == u;
    } else {
      var later := WireAll(d, ms[1..]) + rest;
      Assoc(Wire(d, ms[0]), WireAll(d, ms[1..]), rest);
      if |ms| > 1 {
        WireIsNotEmpty(d, ms[1]);
      }
      MessageIsHeard(d, u, ms[0], later);
      MessagesAreHeard(d, After(u, ms[0], later), ms[1..], rest);
      AfterAllForgetsQueue(After(u, ms[0], later), After(u, ms[0], rest), ms[1..], rest);
    }
  }

  lemma WireIsNotEmpty(d: Dialect, m: Message)
    requires Sendable(d, m)
    ensures Wire(d, m) != []
  {}

  lemma {:induction false} AfterAllForgetsQueue(u: User, v: User, ms: seq<Message>, rest: seq<Byte>)
    requires u.(queue := []) == v.(queue := [])
    ensures AfterAll(u, ms, rest) == AfterAll(v, ms, rest)
    decreases |ms|
  {
    if ms != [] {
      AfterAllForgetsQueue(After(u, ms[0], rest), After(v, ms[0], rest), ms[1..], rest);
    }
  }

  // ----- a whole conversation -----

  /** What the peer's state should be once the whole stream is in: every message
      heard, except that a font family sent last stays queued whole. */
  function Expected(d: Dialect, u: User, ms: seq<Message>): User {
    if EndsPending(d, ms)
    then AfterAll(u, ms[..|ms| - 1], Wire(d, ms[|ms| - 1]))
    else AfterAll(u, ms, [])
  }

  lemma {:induction false} WireAllSplit(d: Dialect, ms: seq<Message>)
    requires ms != []
    ensures WireAll(d, ms) == WireAll(d, ms[..|ms| - 1]) + Wire(d, ms[|ms| - 1])
    decreases |ms|
  {
    hide Wire;
    if |ms| > 1 {
      WireAllSplit(d, ms[1..]);
      assert ms[1..][..|ms| - 2] == ms[..|ms| - 1][1..];
      assert ms[1..][|ms| - 2] == ms[|ms| - 1];
      Assoc(Wire(d, ms[0]), WireAll(d, ms[1..][..|ms| - 2]), Wire(d, ms[|ms| - 1]));
    } else {
      assert ms[1..] == [] && ms[..0] == [];
      assert Wire(d, ms[0]) + [] == Wire(d, ms[0]);
    }
  }

  lemma {:induction false} AfterAllShape(u: User, ms: seq<Message>, rest: seq<Byte>)
    ensures AfterAll(u, ms, rest).queue == rest && AfterAll(u, ms, rest).astray == u.astray
    decreases |ms|
  {
    if ms != [] {
      AfterAllShape(After(u, ms[0], rest), ms[1..], rest);
    }
  }

  lemma {:induction false} AfterAllTextNonEmpty(d: Dialect, u: User, ms: seq<Message>, rest: seq<Byte>)
    requires NoEmptyText(u.events) && AllSendable(d, ms)
    ensures NoEmptyText(AfterAll(u, ms, rest).events)
    decreases |ms|
  {
    if ms != [] {
      assert Sendable(d, ms[0]);
      var e := Reported(ms[0], u.looks);
      assert e.command == CHARACTER ==> e.data.raw != [];
      AfterAllTextNonEmpty(d, After(u, ms[0], rest), ms[1..], rest);
    }
  }

  // A v6 frame is waited for until as many bytes follow its header as it declares.
  lemma RawFrameWaits(code: Byte, size: nat, tail: seq<Byte>)
    requires |tail| < size < 0x8000_0000
    ensures HeadV6(([0, code] + Le32(size)) + tail).Partial?
  {
    var q := ([0, code] + Le32(size)) + tail;
    assert q[2..6] == Le32(size);
  }

  /** An unfollowed font family frame of a v6 peer waits in the queue. */
  lemma FamilyWaits(u: User, m: Message)
    requires m.FontFamily? && Sendable(V6, m) && u.queue == Wire(V6, m)
    ensures Waits(V6, u)
  {
    FamilySize(m);
    hide HeadV6, Payload, Le32, CStr, FromLe32, Declared;
    var p := Payload(m);
    RawFrameWaits(FONT_FAMILY, |p| + 1, p);
  }

  /** The parser undoes the encoder: however the stream of a conversation is cut
      into receives, the peer ends with every message heard, in order, with the
      values it was sent with. */
  lemma ParserUndoesEncoder(d: Dialect, u: User, ms: seq<Message>, cuts: seq<seq<Byte>>)
    requires u.queue == [] && !u.astray && NoEmptyText(u.events)
    requires AllSendable(d, ms) && Flatten(cuts) == WireAll(d, ms)
    ensures SameOnceMerged(ProcessRaw(d, u, cuts), Expected(d, u, ms))
    ensures !ProcessRaw(d, u, cuts).astray
  {
    hide Wire, Payload, HeadOf;
    var v := ProcessRaw(d, u, cuts);
    var w := u.Receive(Flatten(cuts));
    ChunksAsOne(d, u, cuts);
    assert Exploded(u).Receive(Flatten(cuts)) == Exploded(w);
    var x := Expected(d, u, ms);
    if EndsPending(d, ms) {
      var said, last := ms[..|ms| - 1], ms[|ms| - 1];
      WireAllSplit(d, ms);
      if |said| > 0 {
        assert said[|said| - 1] in ms;
      }
      WireIsNotEmpty(d, last);
      assert w.queue == WireAll(d, said) + Wire(d, last);
      MessagesAreHeard(d, w, said, Wire(d, last));
      AfterAllForgetsQueue(w, u, said, Wire(d, last));
      AfterAllShape(u, said, Wire(d, last));
      AfterAllTextNonEmpty(d, u, said, Wire(d, last));
      FamilyWaits(Exploded(x), last);
    } else {
      assert w.queue == WireAll(d, ms) + [];
      MessagesAreHeard(d, w, ms, []);
      AfterAllForgetsQueue(w, u, ms, []);
      AfterAllShape(u, ms, []);
      AfterAllTextNonEmpty(d, u, ms, []);
    }
    assert Run(d, false, Exploded(x)) == Exploded(x);
    assert Exploded(v) == Exploded(x);
    ProcessKeepsTextNonEmpty(d, u, cuts);
    MergeOfExplode(v.events);
    MergeOfExplode(x.events);
    assert v.(events := []) == Exploded(v).(events := []);
    assert x.(events := []) == Exploded(x).(events := []);
  }

  lemma FamilySize(m: Message)
    requires m.FontFamily?
    ensures |Payload(m)| == |CStr(m.name)| + 5
  {}

  /** Font names travel exactly up to 117 bytes. A longer one goes out as a
      header without its payload, and the peer waits for bytes that never come:
      one more byte makes it take the frame exactly when the name fits. */
  lemma FamilyArrivesIffItFits(u: User, m: Message, next: Byte)
    requires m.FontFamily? && |m.name| < 0x7FFF_0000
    requires !u.astray && u.queue == Wire(V6, m) + [next]
    ensures |CStr(m.name)| <= 117 <==> !Waits(V6, u)
    ensures |CStr(m.name)| <= 117 ==> Step(V6, true, u) == After(u, m, [next])
  {
    FamilySize(m);
    if |CStr(m.name)| <= 117 {
      hide HeadOf, Payload, CStr, CommandLooks, Heard;
      CommandIsHeard(V6, u, m, [next]);
      HeadsOfMessages(V6, m, [next]);
    } else {
      OversizeWaits(m, next);
    }
  }

  lemma OversizeWaits(m: Message, next: Byte)
    requires m.FontFamily? && 117 < |CStr(m.name)| <= |m.name| < 0x7FFF_0000
    ensures HeadV6(Wire(V6, m) + [next]).Partial?
  {
    FamilySize(m);
    hide Payload, CStr, HeadV6, Le32, Declared;
    var size := |Payload(m)| + 1;
    assert Wire(V6, m) == [0, FONT_FAMILY] + Le32(size);
    RawFrameWaits(FONT_FAMILY, size, [next]);
  }

  // ----- frames without an event -----

  /** Of the v6 commands, besides votes and verdicts, exactly these push an event. */
  lemma FrameIsReported(u: User, code: Byte, p: seq<Byte>, rest: seq<Byte>)
    requires !IsVerdict(code) && code != FONT_FAMILY && |p| < 0x1_0000 && |p| >= NeededPayload(code, p)
    requires !u.astray && u.queue == ([0, code] + Le32(|p|)) + (p + rest)
    ensures !Waits(V6, u) && Step(V6, true, u).queue == rest && !Step(V6, true, u).astray
    ensures var v := Step(V6, true, u);
      if code in {0x00, 0x01, 0x02, 0x03, 0x04, 0x07, 0x0C, 0x0E, 0x0F, 0x11, 0x12, 0x16, 0x17, 0x1A}
      then v.events == u.events + [Event(code, NOTHING)]
      else v == u.(queue := rest)
  {
    hide HeadV6, NeededPayload, Le32, FromLe32;
    RawFrameV6(code, |p|, p, rest);
    assert u.queue[6 + |p|..] == rest;
    assert u.events + [] == u.events;
  }

  lemma FarewellIsSilent(d: Dialect, u: User, rest: seq<Byte>)
    requires !u.astray && u.queue == Framed(d, DISCONNECTION, []) + rest
    ensures !Waits(d, u) && Step(d, true, u) == u.(queue := rest)
  {
    if d == V6 {
      assert Framed(d, DISCONNECTION, []) == [0, DISCONNECTION] + Le32(0);
      assert [] + rest == rest;
      FrameIsReported(u, DISCONNECTION, [], rest);
    } else {
      assert Framed(d, DISCONNECTION, []) == [DISCONNECTION];
      assert u.queue == [DISCONNECTION] + rest && u.queue[1..] == rest;
      assert u.events + [] == u.events;
    }
  }

  /** A v2 peer takes fewer bytes of the outcome of a vote than are sent: the last count of
      a failed vote, and all but one byte of what the user to be kicked is sent, are read as
      the next commands or text. */
  lemma OutcomeIsCutShort(u: User, m: Message, rest: seq<Byte>)
    requires m.KickFailed? || m.KickedByVote? || m.KickedWithoutVote?
    requires !u.astray && u.queue == Wire(V2, m) + rest
    ensures !Waits(V2, u)
    ensures Step(V2, true, u) == After(u, m, Payload(m)[if m.KickFailed? then 5 else 1..] + rest)
  {
    hide Le32;
    var p := Payload(m);
    assert Wire(V2, m) == [Code(m)] + p;
    assert u.queue[1..] == p + rest;
    assert u.queue[if m.KickFailed? then 6 else 2..] == p[if m.KickFailed? then 5 else 1..] + rest;
  }

  // ----- kicks -----

  // The number with these low bits that an n-bit signed integer stands for.
  function Signed(n: nat, half: nat): int {
    if n < half then n else n - 2 * half
  }

  /** The UIN to kick arrives as a 64-bit number with the same signed value, and so unchanged exactly
      below 2^31. */
  lemma KickArrivesIff(uin: UInt32)
    ensures Signed(SignExtended(uin), 0x8000_0000_0000_0000) == Signed(uin, 0x8000_0000)
    ensures SignExtended(uin) == uin <==> uin < 0x8000_0000
  {}

  /** A v2 peer reads the UIN one byte early: the command is its lowest byte, and its own highest
      byte stays in the queue. */
  lemma KickIsShifted(u: User, uin: UInt32, rest: seq<Byte>)
    requires !u.astray && u.queue == Wire(V2, Kick(uin)) + rest
    ensures !Waits(V2, u)
    ensures Step(V2, true, u) == User([uin / 0x100_0000] + rest,
      u.looks.(toKick := SignExtended((0x100 * uin + 2) % 0x1_0000_0000)), u.events + [Event(KICK, NOTHING)], u.astray)
  {
    var q := [KICK] + Le32(uin);
    BytesOfKick(uin);
    assert Wire(V2, Kick(uin)) == q;
    assert u.queue[..4] == q[..4] && u.queue[4..] == q[4..] + rest;
    hide SignExtended, Le32, FromLe32;
  }

  lemma BytesOfKick(uin: UInt32)
    ensures var q := [KICK] + Le32(uin);
      |q| == 5 && q[4..] == [uin / 0x100_0000] && FromLe32(q[..4]) == (0x100 * uin + 2) % 0x1_0000_0000
  {}

  // ----- single bytes -----

  /** A byte by itself is heard as text if and only if it is printable ASCII or above 0x7F. */
  lemma ByteIsTypedIff(d: Dialect, u: User, b: Byte)
    requires !u.astray && u.queue == [b]
    ensures 0x20 <= b <= 0x7E || 0x80 <= b <==> !Waits(d, u) && Step(d, true, u) == After(u, Typed([b]), [])
  {
    if !Waits(d, u) {
      assert u.queue[..1] == [b] && u.queue[1..] == [];
      assert [b][1..] == [];
      var added := Step(d, true, u).events;
      assert News(Next(d, true, u.queue), u.looks) != [] ==>
        added[|u.events|] == News(Next(d, true, u.queue), u.looks)[0];
      assert After(u, Typed([b]), []).events[|u.events|].command == CHARACTER;
    }
  }

  /** A v6 peer skips every other control character but those that start a frame or edit the line. */
  lemma ControlIsSkipped(u: User, b: Byte, rest: seq<Byte>)
    requires !u.astray && u.queue == [b] + rest
    requires (b < 0x20 && b != 0x00 && b != 0x08 && b != 0x0D) || b == 0x7F
    ensures !Waits(V6, u) && Step(V6, true, u) == u.(queue := rest)
  {
    assert u.queue[1..] == rest && u.events + [] == u.events;
  }
}
