/**
 What two peers type reaches each other (icq/src/chat.cpp:1218-1238, 1935-1995,
 2462-2465): in every run of the handshake and the talk behind it, each end gets the
 bytes the other typed while it was connected, once each and in order.
 */
module ChatTalk {
  import opened Bytes
  import opened Sequences
  import opened ChatStream
  import opened ChatChunks
  import opened ChatHandshake
  import ChatPackets
  import ChatPacketWriters
  import ChatCodec

  // The raw bytes on the way, item by item.
  function Raws(items: seq<Item>): (r: seq<seq<Byte>>) {
    if items == [] then [] else (if items[0].Raw? then [items[0].bytes] else []) + Raws(items[1..])
  }

  /** What the asker has typed while it was connected. */
  function TypedByAsker(s: System, actions: seq<Action>): (r: seq<seq<Byte>>) {
    if actions == [] then []
    else
      var before, a := actions[..|actions| - 1], actions[|actions| - 1];
      TypedByAsker(s, before)
        + if a.AskerTypes? && RunAll(s, before).asker.state == Connected then [a.bytes] else []
  }

  function TypedByAnswerer(s: System, actions: seq<Action>): (r: seq<seq<Byte>>) {
    if actions == [] then []
    else
      var before, a := actions[..|actions| - 1], actions[|actions| - 1];
      TypedByAnswerer(s, before)
        + if a.AnswererTypes? && RunAll(s, before).answerer.state == Connected then [a.bytes] else []
  }

  // What reached an end's ProcessRaw, and what is on its way there.
  function ForAnswerer(s: System): seq<seq<Byte>> {
    s.answerer.raw + Raws(s.toAnswerer)
  }

  function ForAsker(s: System): seq<seq<Byte>> {
    s.asker.raw + Raws(s.toAsker)
  }

  lemma {:induction false} RawsConcat(a: seq<Item>, b: seq<Item>)
    ensures Raws(a + b) == Raws(a) + Raws(b)
  {
    if a == [] {
      assert a + b == b && [] + Raws(b) == Raws(b);
    } else {
      DropInLeft(a, b, 1);
      RawsConcat(a[1..], b);
      Assoc(if a[0].Raw? then [a[0].bytes] else [], Raws(a[1..]), Raws(b));
    }
  }

  lemma NoRaws(items: seq<Item>)
    requires |items| <= 1 && forall i | i in items :: !i.Raw?
    ensures Raws(items) == []
  {}

  // A read moves a raw item from the channel to ProcessRaw, and answers with packets only.
  lemma ReadMovesRaw(reader: Peer, items: seq<Item>)
    requires items != [] && (items[0].Raw? <==> reader.state == Connected)
    ensures var (p, out) := Reads(reader, items[0]);
      p.raw + Raws(items[1..]) == reader.raw + Raws(items) && Raws(out) == []
  {
    hide ChatPackets.DecodeColor, ChatPackets.DecodeColorFont, ChatPackets.DecodeFont, ChatPacketWriters.ColorData,
      ChatPacketWriters.FontData, ChatPacketWriters.ColorFontData;
    var (p, out) := Reads(reader, items[0]);
    NoRaws(out);
    RawsOfHead(items);
    hide Raws;
    if items[0].Raw? {
      Assoc(reader.raw, [items[0].bytes], Raws(items[1..]));
    }
  }

  lemma RawsOfHead(items: seq<Item>)
    requires items != []
    ensures Raws(items) == if items[0].Raw? then [items[0].bytes] + Raws(items[1..]) else Raws(items[1..])
  {}

  lemma HeadsAreSuited(s: System)
    requires Inv(s)
    ensures s.toAsker != [] ==> (s.toAsker[0].Raw? <==> s.asker.state == Connected)
    ensures s.toAnswerer != [] ==> (s.toAnswerer[0].Raw? <==> s.answerer.state == Connected)
  {
    hide Inv;
    InvSuits(s);
    hide ChatPackets.EncodeColor, ChatPackets.EncodeColorFont, ChatPackets.EncodeFont;
  }

  lemma ReadingDelivers(s: System, a: Action)
    requires Inv(s) && Possible(s, a) && (a.AskerReads? || a.AnswererReads?)
    ensures ForAsker(Apply(s, a)) == ForAsker(s) && ForAnswerer(Apply(s, a)) == ForAnswerer(s)
  {
    HeadsAreSuited(s);
    hide Inv, Reads, Raws;
    if a.AskerReads? {
      var (p, out) := Reads(s.asker, s.toAsker[0]);
      ReadMovesRaw(s.asker, s.toAsker);
      RawsConcat(s.toAnswerer, out);
      assert Raws(s.toAnswerer) + [] == Raws(s.toAnswerer);
    } else {
      var (p, out) := Reads(s.answerer, s.toAnswerer[0]);
      ReadMovesRaw(s.answerer, s.toAnswerer);
      RawsConcat(s.toAsker, out);
      assert Raws(s.toAsker) + [] == Raws(s.toAsker);
    }
  }

  // Typing puts the bytes behind everything on the way, if the end that types is connected.
  lemma TypingQueues(s: System, a: Action)
    requires !a.AskerReads? && !a.AnswererReads?
    ensures ForAsker(Apply(s, a)) == ForAsker(s)
      + if a.AnswererTypes? && s.answerer.state == Connected then [a.bytes] else []
    ensures ForAnswerer(Apply(s, a)) == ForAnswerer(s)
      + if a.AskerTypes? && s.asker.state == Connected then [a.bytes] else []
  {
    var t := Apply(s, a);
    if a.AskerTypes? || a.AnswererTypes? {
      var out := [Raw(a.bytes)];
      assert Raws(out) == [a.bytes] by {
        assert out[1..] == [];
      }
      hide Raws, Reads;
      RawsConcat(s.toAnswerer, out);
      RawsConcat(s.toAsker, out);
      assert s.toAnswerer + [] == s.toAnswerer && s.toAsker + [] == s.toAsker;
      Assoc(s.answerer.raw, Raws(s.toAnswerer), [a.bytes]);
      Assoc(s.asker.raw, Raws(s.toAsker), [a.bytes]);
    }
    assert ForAsker(s) + [] == ForAsker(s) && ForAnswerer(s) + [] == ForAnswerer(s);
  }

  /** In every run, direct or reverse, what has reached an end and what is still on its way
      there is exactly what the other end typed while it was connected, in order. */
  lemma {:induction false} TypedIsDelivered(direct: bool, a: ChatPackets.Settings, b: ChatPackets.Settings,
      others: seq<ChatPackets.Client>, actions: seq<Action>)
    requires Startable(a, b, others)
    ensures var s := RunAll(Initial(direct, a, b, others), actions);
      && s.answerer.raw + Raws(s.toAnswerer) == TypedByAsker(Initial(direct, a, b, others), actions)
      && s.asker.raw + Raws(s.toAsker) == TypedByAnswerer(Initial(direct, a, b, others), actions)
    decreases |actions|
  {
    hide ChatPacketWriters.ColorData, Apply, Inv, Startable;
    var start := Initial(direct, a, b, others);
    if actions == [] {
      NothingTypedYet(direct, a, b, others);
    } else {
      var before, last := actions[..|actions| - 1], actions[|actions| - 1];
      var s := RunAll(start, before);
      TypedIsDelivered(direct, a, b, others, before);
      RunKeepsInv(direct, a, b, others, before);
      hide Raws, Initial;
      if !Possible(s, last) {
        NothingHappens(s, last);
        assert TypedByAsker(start, before) + [] == TypedByAsker(start, before);
        assert TypedByAnswerer(start, before) + [] == TypedByAnswerer(start, before);
      } else if last.AskerReads? || last.AnswererReads? {
        ReadingDelivers(s, last);
        assert TypedByAsker(start, before) + [] == TypedByAsker(start, before);
        assert TypedByAnswerer(start, before) + [] == TypedByAnswerer(start, before);
      } else {
        TypingQueues(s, last);
      }
    }
  }

  lemma NothingHappens(s: System, a: Action)
    requires !Possible(s, a)
    ensures Apply(s, a) == s && !a.AskerTypes? && !a.AnswererTypes?
  {}

  lemma NothingTypedYet(direct: bool, a: ChatPackets.Settings, b: ChatPackets.Settings, others: seq<ChatPackets.Client>)
    ensures var s := Initial(direct, a, b, others); ForAsker(s) == [] && ForAnswerer(s) == []
  {
    hide ChatPacketWriters.ColorData;
    var s := Initial(direct, a, b, others);
    if direct {
      var color := Framed(ChatPacketWriters.ColorData(a));
      assert s.toAnswerer[1..] == [color] && [color][1..] == [];
      assert Raws([color]) == [];
    }
  }

  /** Once everything has been read, a conversation the asker typed while connected, cut into
      receives as it may be, is heard by the answerer's parser as it was meant. */
  lemma ConversationArrives(direct: bool, a: ChatPackets.Settings, b: ChatPackets.Settings,
      others: seq<ChatPackets.Client>, actions: seq<Action>, d: Dialect, u: User, ms: seq<ChatCodec.Message>)
    requires Startable(a, b, others) && ChatCodec.AllSendable(d, ms)
    requires u.queue == [] && !u.astray && NoEmptyText(u.events)
    requires Flatten(TypedByAsker(Initial(direct, a, b, others), actions)) == ChatCodec.WireAll(d, ms)
    requires RunAll(Initial(direct, a, b, others), actions).toAnswerer == []
    ensures var s := RunAll(Initial(direct, a, b, others), actions);
      SameOnceMerged(ProcessRaw(d, u, s.answerer.raw), ChatCodec.Expected(d, u, ms))
  {
    hide ChatCodec.WireAll, ProcessRaw, ChatCodec.Expected, RunAll, Initial, TypedByAsker;
    TypedIsDelivered(direct, a, b, others, actions);
    var s := RunAll(Initial(direct, a, b, others), actions);
    assert s.answerer.raw + [] == s.answerer.raw;
    ChatCodec.ParserUndoesEncoder(d, u, ms, s.answerer.raw);
  }
}
