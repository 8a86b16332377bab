/**
 The constructors of the chat handshake packets as they fill their buffers
 (icq/src/chat.cpp:106-139, 319-391, 436-467). A buffer's size is kept in an
 unsigned short (licq/include/licq/packet.h:56), and a field that does not fit any
 more is dropped by itself.
 */
module ChatPacketWriters {
  import opened Bytes
  import opened Sequences
  import opened ChatStream
  import opened ChatPackets

  // sizeof(ChatClient) where an unsigned long has 64 bits.
  const SIZEOF_CLIENT: nat := 64

  function Concat(pieces: seq<seq<Byte>>): (r: seq<Byte>) {
    if pieces == [] then [] else Concat(pieces[..|pieces| - 1]) + pieces[|pieces| - 1]
  }

  function Filled(room: nat, pieces: seq<seq<Byte>>): (r: seq<Byte>)
    ensures |r| <= room
  {
    if pieces == [] then []
    else
      var data, p := Filled(room, pieces[..|pieces| - 1]), pieces[|pieces| - 1];
      if |data| + |p| <= room then data + p else data
  }

  /** The pieces all go in exactly when there is room for all of them. */
  lemma {:induction false} FilledIff(room: nat, pieces: seq<seq<Byte>>)
    ensures Filled(room, pieces) == Concat(pieces) <==> |Concat(pieces)| <= room
    decreases |pieces|
  {
    if pieces != [] {
      FilledIff(room, pieces[..|pieces| - 1]);
    }
  }

  lemma {:induction false} ConcatOfSum(a: seq<seq<Byte>>, b: seq<seq<Byte>>)
    ensures Concat(a + b) == Concat(a) + Concat(b)
    decreases |b|
  {
    if b == [] {
      assert a + b == a && Concat(a) + [] == Concat(a);
    } else {
      var init, last := b[..|b| - 1], b[|b| - 1];
      assert (a + b)[..|a + b| - 1] == a + init;
      ConcatOfSum(a, init);
      Assoc(Concat(a), Concat(init), last);
    }
  }

  lemma ConcatOfOne(p: seq<Byte>)
    ensures Concat([p]) == p
  {
    assert [p][..0] == [] && [] + p == p;
  }

  // ----- the fields in order -----

  function Chars(bytes: seq<Byte>): (r: seq<seq<Byte>>)
    ensures |r| == |bytes| && forall i :: 0 <= i < |bytes| ==> r[i] == [bytes[i]]
  {
    if bytes == [] then [] else [[bytes[0]]] + Chars(bytes[1..])
  }

  function ColorPieces(s: Settings): seq<seq<Byte>> {
    [Le32(0x65)] + ([Le32(0xFFFF_FFF8)] + ([Le32(s.uin)] + ([PackedString(s.name)] + ([Be16(s.port)]
      + (Chars(ColorBytes(s.fore, Swapped(s.back))) + [[0]])))))
  }

  function FontPieces(s: Settings): seq<seq<Byte>> {
    [Le32(VERSION_TCP)] + ([Le32(s.port)] + ([Le32(s.localIp)] + ([Le32(s.realIp)] + ([[s.mode]] + ([Le16(s.session)]
      + ([Le32(s.fontSize)] + ([Le32(s.fontFace)] + ([PackedString(s.family)] + ([[s.encoding]] + [[s.style]])))))))))
  }

  function ClientPieces(c: Client): seq<seq<Byte>> {
    [Le32(c.version)] + ([Le32(c.port)] + ([Le32(c.uin)] + ([Le32(c.ip)] + ([Le32(c.intIp)] + ([[c.mode]]
      + ([Le16(c.port)] + ([Le16(c.session)] + [Le32(c.handshake)])))))))
  }

  function ClientsPieces(cs: seq<Client>): seq<seq<Byte>> {
    if cs == [] then [] else ClientPieces(cs[0]) + ClientsPieces(cs[1..])
  }

  function ColorFontPieces(s: Settings, cs: seq<Client>): seq<seq<Byte>> {
    [Le32(0x65)] + ([Le32(s.uin)] + ([PackedString(s.name)] + (Chars(ColorBytes(s.fore, Swapped(s.back)))
      + (FontPieces(s) + ([[|cs| % 0x100]] + ClientsPieces(cs))))))
  }

  lemma OneMorePiece(p: seq<Byte>, pieces: seq<seq<Byte>>, bytes: seq<Byte>)
    requires Concat(pieces) == bytes
    ensures Concat([p] + pieces) == p + bytes
  {
    ConcatOfSum([p], pieces);
    ConcatOfOne(p);
  }

  lemma {:induction false} ConcatOfChars(bytes: seq<Byte>)
    ensures Concat(Chars(bytes)) == bytes
  {
    if bytes != [] {
      ConcatOfChars(bytes[1..]);
      OneMorePiece([bytes[0]], Chars(bytes[1..]), bytes[1..]);
    }
  }

  lemma ColorInPieces(s: Settings)
    ensures Concat(ColorPieces(s)) == EncodeColor(s)
  {
    hide Concat, Le32, Be16, PackedString, Chars, ColorBytes;
    var colors := ColorBytes(s.fore, Swapped(s.back));
    ConcatOfChars(colors);
    ConcatOfOne([0]);
    ConcatOfSum(Chars(colors), [[0]]);
    var p5, b5 := Chars(colors) + [[0]], colors + [0];
    OneMorePiece(Be16(s.port), p5, b5);
    var p4, b4 := [Be16(s.port)] + p5, Be16(s.port) + b5;
    OneMorePiece(PackedString(s.name), p4, b4);
    var p3, b3 := [PackedString(s.name)] + p4, PackedString(s.name) + b4;
    OneMorePiece(Le32(s.uin), p3, b3);
    var p2, b2 := [Le32(s.uin)] + p3, Le32(s.uin) + b3;
    OneMorePiece(Le32(0xFFFF_FFF8), p2, b2);
    OneMorePiece(Le32(0x65), [Le32(0xFFFF_FFF8)] + p2, Le32(0xFFFF_FFF8) + b2);
  }

  lemma FontInPieces(s: Settings)
    ensures Concat(FontPieces(s)) == EncodeFont(s)
  {
    hide Concat, Le32, Le16, PackedString;
    ConcatOfOne([s.style]);
    OneMorePiece([s.encoding], [[s.style]], [s.style]);
    var p9, b9 := [[s.encoding]] + [[s.style]], [s.encoding] + [s.style];
    OneMorePiece(PackedString(s.family), p9, b9);
    var p8, b8 := [PackedString(s.family)] + p9, PackedString(s.family) + b9;
    OneMorePiece(Le32(s.fontFace), p8, b8);
    var p7, b7 := [Le32(s.fontFace)] + p8, Le32(s.fontFace) + b8;
    OneMorePiece(Le32(s.fontSize), p7, b7);
    var p6, b6 := [Le32(s.fontSize)] + p7, Le32(s.fontSize) + b7;
    OneMorePiece(Le16(s.session), p6, b6);
    var p5, b5 := [Le16(s.session)] + p6, Le16(s.session) + b6;
    OneMorePiece([s.mode], p5, b5);
    var p4, b4 := [[s.mode]] + p5, [s.mode] + b5;
    OneMorePiece(Le32(s.realIp), p4, b4);
    var p3, b3 := [Le32(s.realIp)] + p4, Le32(s.realIp) + b4;
    OneMorePiece(Le32(s.localIp), p3, b3);
    var p2, b2 := [Le32(s.localIp)] + p3, Le32(s.localIp) + b3;
    OneMorePiece(Le32(s.port), p2, b2);
    OneMorePiece(Le32(VERSION_TCP), [Le32(s.port)] + p2, Le32(s.port) + b2);
  }

  lemma ClientInPieces(c: Client)
    ensures Concat(ClientPieces(c)) == EncodeClient(c)
  {
    hide Concat, Le32, Le16;
    ConcatOfOne(Le32(c.handshake));
    OneMorePiece(Le16(c.session), [Le32(c.handshake)], Le32(c.handshake));
    var p7, b7 := [Le16(c.session)] + [Le32(c.handshake)], Le16(c.session) + Le32(c.handshake);
    OneMorePiece(Le16(c.port), p7, b7);
    var p6, b6 := [Le16(c.port)] + p7, Le16(c.port) + b7;
    OneMorePiece([c.mode], p6, b6);
    var p5, b5 := [[c.mode]] + p6, [c.mode] + b6;
    OneMorePiece(Le32(c.intIp), p5, b5);
    var p4, b4 := [Le32(c.intIp)] + p5, Le32(c.intIp) + b5;
    OneMorePiece(Le32(c.ip), p4, b4);
    var p3, b3 := [Le32(c.ip)] + p4, Le32(c.ip) + b4;
    OneMorePiece(Le32(c.uin), p3, b3);
    var p2, b2 := [Le32(c.uin)] + p3, Le32(c.uin) + b3;
    OneMorePiece(Le32(c.port), p2, b2);
    OneMorePiece(Le32(c.version), [Le32(c.port)] + p2, Le32(c.port) + b2);
  }

  lemma {:induction false} ClientsInPieces(cs: seq<Client>)
    ensures Concat(ClientsPieces(cs)) == EncodeClients(cs)
  {
    hide ClientPieces, EncodeClient, Concat;
    if cs == [] {
      ConcatOfNone();
    } else {
      ClientInPieces(cs[0]);
      ClientsInPieces(cs[1..]);
      ConcatOfSum(ClientPieces(cs[0]), ClientsPieces(cs[1..]));
    }
  }

  lemma ConcatOfNone()
    ensures Concat([]) == []
  {}

  lemma ColorFontInPieces(s: Settings, cs: seq<Client>)
    ensures Concat(ColorFontPieces(s, cs)) == EncodeColorFont(s, cs)
  {
    hide Concat, Le32, Le16, PackedString, Chars, ColorBytes, FontPieces, EncodeFont, ClientsPieces, EncodeClients;
    var colors := ColorBytes(s.fore, Swapped(s.back));
    ConcatOfChars(colors);
    FontInPieces(s);
    ClientsInPieces(cs);
    OneMorePiece([|cs| % 0x100], ClientsPieces(cs), EncodeClients(cs));
    var p5, b5 := [[|cs| % 0x100]] + ClientsPieces(cs), [|cs| % 0x100] + EncodeClients(cs);
    ConcatOfSum(FontPieces(s), p5);
    ConcatOfSum(Chars(colors), FontPieces(s) + p5);
    var p3, b3 := Chars(colors) + (FontPieces(s) + p5), colors + (EncodeFont(s) + b5);
    OneMorePiece(PackedString(s.name), p3, b3);
    var p2, b2 := [PackedString(s.name)] + p3, PackedString(s.name) + b3;
    OneMorePiece(Le32(s.uin), p2, b2);
    OneMorePiece(Le32(0x65), [Le32(s.uin)] + p2, Le32(s.uin) + b2);
  }

  // ----- what the packets hold -----

  function ColorRoom(s: Settings): UInt16 {
    (10 + |s.name| + 16) % 0x1_0000
  }

  function FontRoom(s: Settings): UInt16 {
    (29 + |s.family| + 3) % 0x1_0000
  }

  function ColorFontRoom(s: Settings, n: nat): UInt16 {
    (10 + |s.name| + 38 + |s.family| + 4 + n * (SIZEOF_CLIENT + 2)) % 0x1_0000
  }

  function ColorData(s: Settings): (b: seq<Byte>) {
    Filled(ColorRoom(s), ColorPieces(s))
  }

  function FontData(s: Settings): (b: seq<Byte>) {
    Filled(FontRoom(s), FontPieces(s))
  }

  function ColorFontData(s: Settings, cs: seq<Client>): (b: seq<Byte>) {
    Filled(ColorFontRoom(s, |cs|), ColorFontPieces(s, cs))
  }

  /** A Color packet is whole if and only if its fields, the name up to its first NUL,
      fit the size as an unsigned short. */
  lemma ColorIsWholeIff(s: Settings)
    ensures ColorData(s) == EncodeColor(s) <==> 26 + |CStr(s.name)| <= ColorRoom(s)
  {
    ColorInPieces(s);
    FilledIff(ColorRoom(s), ColorPieces(s));
    hide Le32, Be16, CStr, ColorPieces, ColorRoom;
  }

  lemma FontIsWholeIff(s: Settings)
    ensures FontData(s) == EncodeFont(s) <==> 32 + |CStr(s.family)| <= FontRoom(s)
  {
    FontInPieces(s);
    FilledIff(FontRoom(s), FontPieces(s));
    hide Le32, Le16, CStr, FontPieces, FontRoom;
  }

  lemma ColorFontIsWholeIff(s: Settings, cs: seq<Client>)
    ensures ColorFontData(s, cs) == EncodeColorFont(s, cs)
            <==> 52 + |CStr(s.name)| + |CStr(s.family)| + 29 * |cs| <= ColorFontRoom(s, |cs|)
  {
    ColorFontInPieces(s, cs);
    FilledIff(ColorFontRoom(s, |cs|), ColorFontPieces(s, cs));
    FontSize(s);
    ClientsSize(cs);
    hide Le32, CStr, ColorFontPieces, ColorFontRoom, EncodeFont, EncodeClients;
  }

  lemma FontSize(s: Settings)
    ensures |EncodeFont(s)| == 29 + |CStr(s.family)| + 3
  {}

  lemma {:induction false} ClientsSize(cs: seq<Client>)
    ensures |EncodeClients(cs)| == 29 * |cs|
  {
    hide Le32, Le16;
    if cs != [] {
      assert |EncodeClient(cs[0])| == 29;
      ClientsSize(cs[1..]);
    }
  }

  /** Settings, and a number of other participants, whose packets are smaller than 64 KiB. */
  predicate Packable(s: Settings, n: nat) {
    52 + |s.name| + |s.family| + n * (SIZEOF_CLIENT + 2) < 0x1_0000
  }

  lemma PackableIsWhole(s: Settings, cs: seq<Client>)
    requires Packable(s, |cs|)
    ensures ColorData(s) == EncodeColor(s) && FontData(s) == EncodeFont(s)
    ensures ColorFontData(s, cs) == EncodeColorFont(s, cs)
  {
    hide ColorData, FontData, ColorFontData, EncodeColor, EncodeFont, EncodeColorFont;
    ColorIsWholeIff(s);
    FontIsWholeIff(s);
    ColorFontIsWholeIff(s, cs);
  }

  // ----- the constructors -----

  // One pack call; done is what was packed before.
  method Append(b: Buffer, bytes: seq<Byte>, ghost done: seq<seq<Byte>>)
    requires b.data == Filled(b.capacity, done)
    modifies b
    ensures b.data == Filled(b.capacity, done + [bytes])
  {
    assert (done + [bytes])[..|done|] == done;
    b.PackRaw(bytes);
  }

  method PackChars(b: Buffer, bytes: seq<Byte>, ghost done: seq<seq<Byte>>)
    requires b.data == Filled(b.capacity, done)
    modifies b
    ensures b.data == Filled(b.capacity, done + Chars(bytes))
  {
    hide Filled, Chars;
    assert done + Chars(bytes)[..0] == done;
    var i := 0;
    while i < |bytes|
      invariant 0 <= i <= |bytes| && b.data == Filled(b.capacity, done + Chars(bytes)[..i])
    {
      Append(b, [bytes[i]], done + Chars(bytes)[..i]);
      assert done + Chars(bytes)[..i] + [[bytes[i]]] == done + Chars(bytes)[..i + 1];
      i := i + 1;
    }
    assert Chars(bytes)[..i] == Chars(bytes);
  }

  method PackColor(s: Settings) returns (b: Buffer)
    ensures fresh(b) && b.data == ColorData(s)
  {
    hide Le32, Be16, PackedString, Filled, Chars, ColorBytes;
    b := new Buffer((10 + |s.name| + 16) % 0x1_0000);
    NothingFilled(b.capacity);
    ghost var done: seq<seq<Byte>> := [];
    Append(b, Le32(0x65), done);
    done := done + [Le32(0x65)];
    Append(b, Le32(0xFFFF_FFF8), done);
    done := done + [Le32(0xFFFF_FFF8)];
    Append(b, Le32(s.uin), done);
    done := done + [Le32(s.uin)];
    Append(b, PackedString(s.name), done);
    done := done + [PackedString(s.name)];
    Append(b, Be16(s.port), done);
    done := done + [Be16(s.port)];
    PackChars(b, ColorBytes(s.fore, Swapped(s.back)), done);
    done := done + Chars(ColorBytes(s.fore, Swapped(s.back)));
    Append(b, [0], done);
    assert done + [[0]] == ColorPieces(s);
  }

  lemma NothingFilled(room: nat)
    ensures Filled(room, []) == []
  {}

  method PackFontInto(b: Buffer, s: Settings, ghost before: seq<seq<Byte>>)
    requires b.data == Filled(b.capacity, before)
    modifies b
    ensures b.data == Filled(b.capacity, before + FontPieces(s))
  {
    hide Le32, Le16, PackedString, Filled;
    ghost var done := before;
    Append(b, Le32(VERSION_TCP), done);
    done := done + [Le32(VERSION_TCP)];
    Append(b, Le32(s.port), done);
    done := done + [Le32(s.port)];
    Append(b, Le32(s.localIp), done);
    done := done + [Le32(s.localIp)];
    Append(b, Le32(s.realIp), done);
    done := done + [Le32(s.realIp)];
    Append(b, [s.mode], done);
    done := done + [[s.mode]];
    Append(b, Le16(s.session), done);
    done := done + [Le16(s.session)];
    Append(b, Le32(s.fontSize), done);
    done := done + [Le32(s.fontSize)];
    Append(b, Le32(s.fontFace), done);
    done := done + [Le32(s.fontFace)];
    Append(b, PackedString(s.family), done);
    done := done + [PackedString(s.family)];
    Append(b, [s.encoding], done);
    done := done + [[s.encoding]];
    Append(b, [s.style], done);
    assert done + [[s.style]] == before + FontPieces(s);
  }

  method PackFont(s: Settings) returns (b: Buffer)
    ensures fresh(b) && b.data == FontData(s)
  {
    hide Filled, FontPieces;
    b := new Buffer((29 + |s.family| + 3) % 0x1_0000);
    NothingFilled(b.capacity);
    PackFontInto(b, s, []);
    assert [] + FontPieces(s) == FontPieces(s);
  }

  method PackClient(b: Buffer, c: Client, ghost before: seq<seq<Byte>>)
    requires b.data == Filled(b.capacity, before)
    modifies b
    ensures b.data == Filled(b.capacity, before + ClientPieces(c))
  {
    hide Le32, Le16, Filled;
    ghost var done := before;
    Append(b, Le32(c.version), done);
    done := done + [Le32(c.version)];
    Append(b, Le32(c.port), done);
    done := done + [Le32(c.port)];
    Append(b, Le32(c.uin), done);
    done := done + [Le32(c.uin)];
    Append(b, Le32(c.ip), done);
    done := done + [Le32(c.ip)];
    Append(b, Le32(c.intIp), done);
    done := done + [Le32(c.intIp)];
    Append(b, [c.mode], done);
    done := done + [[c.mode]];
    Append(b, Le16(c.port), done);
    done := done + [Le16(c.port)];
    Append(b, Le16(c.session), done);
    done := done + [Le16(c.session)];
    Append(b, Le32(c.handshake), done);
    assert done + [Le32(c.handshake)] == before + ClientPieces(c);
  }

  method PackClients(b: Buffer, clients: seq<Client>, ghost before: seq<seq<Byte>>)
    requires b.data == Filled(b.capacity, before)
    modifies b
    ensures b.data == Filled(b.capacity, before + ClientsPieces(clients))
  {
    hide Filled, ClientPieces;
    ghost var done := before;
    var i := 0;
    while i < |clients|
      invariant 0 <= i <= |clients| && b.data == Filled(b.capacity, done)
      invariant done + ClientsPieces(clients[i..]) == before + ClientsPieces(clients)
    {
      PackClient(b, clients[i], done);
      DropTwice(clients, i, 1);
      Assoc(done, ClientPieces(clients[i]), ClientsPieces(clients[i + 1..]));
      done := done + ClientPieces(clients[i]);
      i := i + 1;
    }
    assert done + [] == done;
  }

  method PackColorFont(s: Settings, clients: seq<Client>) returns (b: Buffer)
    ensures fresh(b) && b.data == ColorFontData(s, clients)
  {
    hide Le32, PackedString, Filled, Chars, ColorBytes, FontPieces, ClientsPieces;
    b := new Buffer((10 + |s.name| + 38 + |s.family| + 4 + |clients| * (SIZEOF_CLIENT + 2)) % 0x1_0000);
    NothingFilled(b.capacity);
    ghost var done: seq<seq<Byte>> := [];
    Append(b, Le32(0x65), done);
    done := done + [Le32(0x65)];
    Append(b, Le32(s.uin), done);
    done := done + [Le32(s.uin)];
    Append(b, PackedString(s.name), done);
    done := done + [PackedString(s.name)];
    PackChars(b, ColorBytes(s.fore, Swapped(s.back)), done);
    done := done + Chars(ColorBytes(s.fore, Swapped(s.back)));
    PackFontInto(b, s, done);
    done := done + FontPieces(s);
    Append(b, [|clients| % 0x100], done);
    done := done + [[|clients| % 0x100]];
    PackClients(b, clients, done);
    assert done + ClientsPieces(clients) == ColorFontPieces(s, clients);
  }
}
