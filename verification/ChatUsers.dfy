/**
 ChatUser as the chat manager keeps it, with the loops of ProcessRaw,
 ProcessRaw_v2 and ProcessRaw_v6 over its queue (icq/src/chat.cpp:1218-1870),
 and the client side that packs what is sent to it (1935-2220).
 */
module ChatUsers {
  import opened Bytes
  import opened ChatStream
  import opened Sequences
  import ChatCodec

  class ChatUser {
    const version: nat
    var chatQueue: seq<Byte>
    var linebuf: seq<Byte>
    var colorFore: Color
    var colorBack: Color
    var fontFamily: Text
    var fontEncoding: Byte
    var fontStyle: Byte
    var fontSize: UInt16
    var fontFace: nat
    var focus: bool
    var sleep: bool
    var nToKick: nat
    var events: seq<Event>
    var astray: bool

    // A new ChatUser: black on white, 12 point Courier.
    constructor (socketVersion: nat)
      ensures version == socketVersion
      ensures Snapshot() == User([], FreshLooks(), [], false)
    {
      version := socketVersion;
      chatQueue, linebuf := [], [];
      colorFore, colorBack := Color(0, 0, 0), Color(0xFF, 0xFF, 0xFF);
      fontFamily, fontEncoding, fontStyle := Text(COURIER, 1), 1, 0x31;
      fontSize, fontFace := 12, 0;
      focus, sleep, nToKick := true, false, 0;
      events, astray := [], false;
    }

    function Dialect(): Dialect {
      if version >= 6 then V6 else V2
    }

    function GetLooks(): Looks
      reads this
    {
      Looks(linebuf, colorFore, colorBack, fontFamily, fontEncoding, fontStyle, fontSize, fontFace, focus, sleep, nToKick)
    }

    function Snapshot(): User
      reads this
    {
      User(chatQueue, GetLooks(), events, astray)
    }

    method PushChatEvent(command: Byte, data: Text)
      modifies this`events
      ensures events == old(events) + [Event(command, data)]
    {
      events := events + [Event(command, data)];
    }

    /** Append what the socket received and parse as far as possible. */
    method ProcessRaw(received: seq<Byte>)
      modifies this
      ensures Snapshot() == Run(Dialect(), true, old(Snapshot()).Receive(received))
    {
      var i := 0;
      while i < |received|
        invariant 0 <= i <= |received|
        invariant chatQueue == old(chatQueue) + received[..i]
        invariant GetLooks() == old(GetLooks()) && events == old(events) && astray == old(astray)
      {
        chatQueue := chatQueue + [received[i]];
        i := i + 1;
      }
      assert received[..i] == received;
      if astray {
        return;
      }
      if version >= 6 {
        ProcessRawV6();
      } else {
        ProcessRawV2();
      }
    }

    method ProcessRawV6()
      requires !astray
      modifies this
      ensures Snapshot() == Run(V6, true, old(Snapshot()))
    {
      hide HeadV6;
      ghost var whole := Run(V6, true, Snapshot());
      while chatQueue != []
        invariant !astray && Run(V6, true, Snapshot()) == whole
        decreases |chatQueue|
      {
        ghost var before := Snapshot();
        var more := true;
        if chatQueue[0] == 0 {
          more := TakeFrameV6();
        } else {
          HeadOffFrameV6(chatQueue);
          if chatQueue[0] == NEWLINE || chatQueue[0] == BACKSPACE {
            EditLine(chatQueue[0]);
          } else {
            TakeText();
          }
        }
        if !more {
          return;
        }
        assert Snapshot() == Step(V6, true, before);
      }
    }

    /** A v6 frame at the head of the queue; false when the loop has to stop at it. */
    method TakeFrameV6() returns (more: bool)
      requires !astray && chatQueue != [] && chatQueue[0] == 0
      modifies this
      ensures var h := HeadV6(old(chatQueue));
        && more == (!h.Partial? && !h.Unreadable?)
        && Snapshot() == if h.Partial? then old(Snapshot()) else Advance(h, old(Snapshot()))
    {
      hide CommandLooks, Announced, FromLe32, SignExtended, NeededPayload, Advance;
      if |chatQueue| < 6 {
        return false;
      }
      var code := chatQueue[1];
      var chatSize := SignExtended(FromLe32(chatQueue[2..6]));
      if |chatQueue| < (6 + chatSize) % 0x1_0000_0000_0000_0000 {
        return false;
      }
      var inFrame: int := if code == FONT_FAMILY then (chatSize as int) - 1 else chatSize;
      if !(0 <= inFrame < 0x1_0000) || IsVerdict(code) {
        LoseTrack();
        return false;
      }
      var needed := NeededPayload(code, chatQueue[6..6 + chatSize]);
      if chatSize < needed {
        LoseTrack();
        return false;
      }
      NeededOfPrefix(code, chatQueue[6..6 + chatSize]);
      assert chatQueue[6..6 + chatSize][..needed] == chatQueue[6..6 + needed];
      TakeCommand(code, 6, if code == FONT_FAMILY then needed else chatSize, inFrame);
      return true;
    }

    method LoseTrack()
      modifies this`astray
      ensures Snapshot() == Advance(Unreadable, old(Snapshot()))
    {
      astray := true;
    }

    // Drop a header, run the command on the data behind it, drop what the frame declares.
    method TakeCommand(code: Byte, header: nat, size: nat, inFrame: nat)
      requires header + size <= |chatQueue| && header + inFrame <= |chatQueue|
      requires size >= NeededPayload(code, chatQueue[header..header + size])
      modifies this
      ensures Snapshot() ==
        Advance(Command(code, old(chatQueue)[header..header + size], header + inFrame), old(Snapshot()))
    {
      hide CommandLooks, NeededPayload, Announced;
      PopFront(header);
      assert chatQueue[..size] == old(chatQueue)[header..header + size];
      RunCommand(code, chatQueue[..size]);
      PopFront(inFrame);
      DropTwice(old(chatQueue), header, inFrame);
    }

    method ProcessRawV2()
      requires !astray
      modifies this
      ensures Snapshot() == Run(V2, true, old(Snapshot()))
    {
      hide HeadV2;
      ghost var whole := Run(V2, true, Snapshot());
      while chatQueue != []
        invariant !astray && Run(V2, true, Snapshot()) == whole
        decreases |chatQueue|
      {
        ghost var before := Snapshot();
        var more := TakeHeadV2();
        if !more {
          return;
        }
        assert Snapshot() == Step(V2, true, before);
      }
    }

    method TakeHeadV2() returns (more: bool)
      requires !astray && chatQueue != []
      modifies this
      ensures var h := HeadV2(old(chatQueue));
        && more == (!h.Partial? && !h.Unreadable?)
        && Snapshot() == if h.Partial? then old(Snapshot()) else Advance(h, old(Snapshot()))
    {
      hide Advance;
      var chatChar := chatQueue[0];
      var length := LengthV2(chatQueue);
      if chatChar == NEWLINE || chatChar == BACKSPACE {
        EditLine(chatChar);
      } else if length == 0 {
        if chatChar == FONT_FAMILY {
          return false;
        }
        TakeText();
      } else if |chatQueue| < length {
        return false;
      } else if length >= 0x1_0000 || IsVerdict(chatChar) {
        LoseTrack();
        return false;
      } else {
        TakeCommandV2(chatChar, length);
      }
      return true;
    }

    method PopFront(n: nat)
      requires n <= |chatQueue|
      modifies this`chatQueue
      ensures chatQueue == old(chatQueue)[n..]
    {
      var i := 0;
      while i < n
        invariant 0 <= i <= n && chatQueue == old(chatQueue)[i..]
      {
        chatQueue := chatQueue[1..];
        i := i + 1;
      }
    }

    method TakeCommandV2(code: Byte, length: nat)
      requires 0 < length <= |chatQueue|
      requires var data := if code == KICK then chatQueue[..length] else chatQueue[1..length];
        |data| >= NeededPayload(code, data)
      modifies this
      ensures var data := if code == KICK then old(chatQueue)[..length] else old(chatQueue)[1..length];
        Snapshot() == Advance(Command(code, data, length), old(Snapshot()))
    {
      hide CommandLooks, NeededPayload, Announced;
      RunCommand(code, if code == KICK then chatQueue[..length] else chatQueue[1..length]);
      PopFront(length);
    }

    // The command switch both dialects share.
    method RunCommand(code: Byte, data: seq<Byte>)
      requires |data| >= NeededPayload(code, data)
      modifies this
      ensures chatQueue == old(chatQueue) && astray == old(astray)
      ensures GetLooks() == CommandLooks(code, data, old(GetLooks()))
      ensures events == old(events) + News(Command(code, data, 0), old(GetLooks()))
    {
      hide FromLe16, FromLe32, Low16, SignExtended, Announced;
      if code == COLOR_FG {
        colorFore := Color(data[0], data[1], data[2]);
      } else if code == COLOR_BG {
        colorBack := Color(data[0], data[1], data[2]);
      } else if code == FONT_FAMILY {
        var sizeFontName := FromLe16(data);
        fontFamily := Text(data[2..2 + sizeFontName], fontEncoding);
        fontEncoding, fontStyle := data[sizeFontName + 2], data[sizeFontName + 3];
      } else if code == FONT_FACE {
        fontFace := SignExtended(FromLe32(data));
      } else if code == FONT_SIZE {
        fontSize := Low16(FromLe32(data));
      } else if code == FOCUS_IN {
        focus := true;
      } else if code == FOCUS_OUT {
        focus := false;
      } else if code == SLEEP_OFF {
        sleep := false;
      } else if code == SLEEP_ON {
        sleep := true;
      } else if code == KICK {
        nToKick := SignExtended(FromLe32(data));
      }
      if Announced(code) {
        PushChatEvent(code, NOTHING);
      }
    }

    method EditLine(key: Byte)
      requires chatQueue != [] && (key == NEWLINE || key == BACKSPACE)
      modifies this
      ensures Snapshot() == Advance(Key(key), old(Snapshot()))
    {
      hide CommandLooks, Announced;
      if key == NEWLINE {
        PushChatEvent(NEWLINE, Text(linebuf, fontEncoding));
        linebuf := [];
      } else {
        if |linebuf| > 0 {
          linebuf := linebuf[..|linebuf| - 1];
        }
        PushChatEvent(BACKSPACE, NOTHING);
      }
      PopFront(1);
    }

    // The default branch: a run of text, or a control character to drop.
    method TakeText()
      requires chatQueue != []
      modifies this
      ensures Snapshot() == Advance(TextHead(old(chatQueue)), old(Snapshot()))
    {
      hide Advance;
      if IsControl(chatQueue[0]) {
        SkipControl();
      } else {
        TakeRun();
      }
    }

    method SkipControl()
      requires chatQueue != []
      modifies this`chatQueue
      ensures Snapshot() == Advance(Ignored, old(Snapshot()))
    {
      hide CommandLooks, Announced;
      PopFront(1);
    }

    method TakeRun()
      requires chatQueue != [] && !IsControl(chatQueue[0])
      modifies this
      ensures Snapshot() == Advance(Printable(old(chatQueue)[..RunLength(old(chatQueue))]), old(Snapshot()))
    {
      hide CommandLooks, Announced, RunLength;
      var tempStr := CollectRun();
      linebuf := linebuf + tempStr;
      PushChatEvent(CHARACTER, Text(tempStr, fontEncoding));
    }

    method CollectRun() returns (tempStr: seq<Byte>)
      modifies this`chatQueue
      ensures var n := RunLength(old(chatQueue));
        tempStr == old(chatQueue)[..n] && chatQueue == old(chatQueue)[n..]
    {
      tempStr := [];
      ghost var all := chatQueue;
      ghost var n := RunLength(all);
      while chatQueue != [] && !IsControl(chatQueue[0])
        invariant |tempStr| <= n == |tempStr| + RunLength(chatQueue)
        invariant tempStr == all[..|tempStr|] && chatQueue == all[|tempStr|..]
        decreases |chatQueue|
      {
        OneMore(all, |tempStr|);
        tempStr := tempStr + [chatQueue[0]];
        chatQueue := chatQueue[1..];
      }
    }
  }

  lemma NeededOfPrefix(code: Byte, data: seq<Byte>)
    requires |data| >= NeededPayload(code, data)
    ensures NeededPayload(code, data[..NeededPayload(code, data)]) == NeededPayload(code, data)
  {}

  function TextHead(q: seq<Byte>): (h: Head)
    requires q != []
    ensures Used(h) <= |q|
  {
    if IsControl(q[0]) then Ignored else Printable(q[..RunLength(q)])
  }

  lemma HeadOffFrameV6(q: seq<Byte>)
    requires q != [] && q[0] != 0
    ensures HeadV6(q) == if q[0] == NEWLINE || q[0] == BACKSPACE then Key(q[0]) else TextHead(q)
  {}

  const COURIER: seq<Byte> := [0x63, 0x6F, 0x75, 0x72, 0x69, 0x65, 0x72]

  function FreshLooks(): Looks {
    Looks([], Color(0, 0, 0), Color(0xFF, 0xFF, 0xFF), Text(COURIER, 1), 1, 0x31, 12, 0, true, false, 0)
  }

  /** The sending side: one connected client, and the bytes put on its socket. */
  class ChatClient {
    const version: nat
    var socket: seq<Byte>

    constructor (socketVersion: nat)
      ensures version == socketVersion && socket == []
    {
      version, socket := socketVersion, [];
    }

    function Dialect(): Dialect {
      if version >= 6 then V6 else V2
    }

    method SendBufferToClient(b: Buffer, cmd: Byte)
      modifies this`socket
      ensures socket == old(socket) + ChatCodec.Framed(Dialect(), cmd, b.data)
    {
      hide Le32;
      var out := new Buffer(128);
      if version >= 6 {
        out.PackChar(0);
        out.PackChar(cmd);
        out.PackUnsignedLong((|b.data| + if cmd == FONT_FAMILY then 1 else 0) % 0x1_0000_0000);
      } else {
        out.PackChar(cmd);
      }
      assert out.data == ChatCodec.Header(Dialect(), cmd, |b.data|);
      out.PackRaw(b.data);
      socket := socket + out.data;
    }

    method SendBufferRaw(data: seq<Byte>)
      modifies this`socket
      ensures socket == old(socket) + data
    {
      socket := socket + data;
    }

    /** Every sender of the chat window puts on the socket the encoding of its message. */
    method Send(m: ChatCodec.Message)
      modifies this`socket
      ensures socket == old(socket) + ChatCodec.Wire(Dialect(), m)
    {
      hide ChatCodec.Framed;
      match m {
        case Typed(run) => SendBufferRaw(run);
        case Newline => SendBufferRaw([NEWLINE]);
        case Backspace => SendBufferRaw([BACKSPACE]);
        case FontFamily(name, encoding, style) => ChangeFontFamily(name, encoding, style);
        case ColorFg(c) => SendColor(c, COLOR_FG);
        case ColorBg(c) => SendColor(c, COLOR_BG);
        case FontSize(points) => SendLong(points, FONT_SIZE);
        case FontFace(b, i, u, s) => SendLong(ChatCodec.FaceBits(b, i, u, s), FONT_FACE);
        case Kick(uin) => SendLong(uin, KICK);
        case KickFailed(uin, yes, no) => SendCounts(uin, yes, no, KICK_FAIL);
        case KickedByVote(uin, yes, no) => SendCounts(uin, yes, no, KICK_YOU);
        case KickedWithoutVote => SendNoVote();
        case _ => SendCommand(ChatCodec.Code(m));
      }
    }

    method ChangeFontFamily(name: seq<Byte>, encoding: Byte, style: Byte)
      modifies this`socket
      ensures socket == old(socket) +
        ChatCodec.Framed(Dialect(), FONT_FAMILY, ChatCodec.Payload(ChatCodec.FontFamily(name, encoding, style)))
    {
      hide ChatCodec.Framed, PackedString, CStr;
      var buf := new Buffer(|name| + 5);
      buf.PackString(name);
      buf.PackChar(encoding);
      buf.PackChar(style);
      assert buf.data == [] + PackedString(name) + [encoding] + [style];
      assert buf.data == ChatCodec.Payload(ChatCodec.FontFamily(name, encoding, style));
      SendBufferToClient(buf, FONT_FAMILY);
    }

    method SendCommand(cmd: Byte)
      modifies this`socket
      ensures socket == old(socket) + ChatCodec.Framed(Dialect(), cmd, [])
    {
      var buf := new Buffer(0);
      SendBufferToClient(buf, cmd);
    }

    method SendColor(c: Color, cmd: Byte)
      modifies this`socket
      ensures socket == old(socket) + ChatCodec.Framed(Dialect(), cmd, [c.red, c.green, c.blue, 0])
    {
      hide ChatCodec.Framed;
      var buf := new Buffer(4);
      buf.PackChar(c.red);
      buf.PackChar(c.green);
      buf.PackChar(c.blue);
      buf.PackChar(0);
      assert buf.data == [c.red, c.green, c.blue, 0];
      SendBufferToClient(buf, cmd);
    }

    // The outcome of a vote: whom it was about, and the answers.
    method SendCounts(uin: UInt32, yes: Byte, no: Byte, cmd: Byte)
      modifies this`socket
      ensures socket == old(socket) + ChatCodec.Framed(Dialect(), cmd, Le32(uin) + [yes, no])
    {
      hide ChatCodec.Framed, Le32;
      var buf := new Buffer(6);
      buf.PackUnsignedLong(uin);
      buf.PackChar(yes);
      buf.PackChar(no);
      assert buf.data == Le32(uin) + [yes, no];
      SendBufferToClient(buf, cmd);
    }

    method SendNoVote()
      modifies this`socket
      ensures socket == old(socket) + ChatCodec.Framed(Dialect(), KICK_YOU, [2, 1])
    {
      hide ChatCodec.Framed;
      var buf := new Buffer(2);
      buf.PackChar(2);
      buf.PackChar(1);
      assert buf.data == [2, 1];
      SendBufferToClient(buf, KICK_YOU);
    }

    method SendLong(n: UInt32, cmd: Byte)
      modifies this`socket
      ensures socket == old(socket) + ChatCodec.Framed(Dialect(), cmd, Le32(n))
    {
      hide ChatCodec.Framed;
      var buf := new Buffer(4);
      buf.PackUnsignedLong(n);
      assert buf.data == Le32(n);
      SendBufferToClient(buf, cmd);
    }
  }
}
