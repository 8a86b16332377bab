/**
 The three packets of the chat handshake (icq/src/chat.cpp:106-510): how their
 constructors lay them out and how the peer's constructors read them back.
 A received packet starts with its own length, which the readers skip.
 */
module ChatPackets {
  import opened Bytes
  import opened Sequences
  import opened ChatStream

  const VERSION_TCP: UInt32 := 8

  /** What a chat manager says about itself. Colours are its m_nColorFore and m_nColorBack. */
  datatype Settings = Settings(
    name: seq<Byte>, uin: UInt32, port: UInt16, session: UInt16, fore: Color, back: Color,
    fontSize: UInt16, fontFace: UInt32, family: seq<Byte>, encoding: Byte, style: Byte,
    localIp: UInt32, realIp: UInt32, mode: Byte)

  /** Another participant, as the multiparty list of the ColorFont packet describes it. */
  datatype Client = Client(
    version: UInt32, port: UInt16, uin: UInt32, ip: UInt32, intIp: UInt32, mode: Byte, session: UInt16, handshake: UInt32)

  datatype ColorPacket = ColorPacket(uin: UInt32, name: seq<Byte>, port: UInt16, fore: Color, back: Color)

  datatype FontPacket = FontPacket(
    port: UInt16, session: UInt16, fontSize: UInt32, fontFace: UInt32, family: seq<Byte>, encoding: Byte, style: Byte)

  datatype ColorFontPacket = ColorFontPacket(
    uin: UInt32, name: seq<Byte>, fore: Color, back: Color, font: FontPacket, clients: seq<Client>)

  // ----- writing -----

  // The callers pass red, green, blue where the constructors expect red, blue,
  // green, so the background goes out with green and blue exchanged.
  function Swapped(c: Color): (r: Color) {
    Color(c.red, c.blue, c.green)
  }

  function ColorBytes(fore: Color, back: Color): seq<Byte> {
    [fore.red, fore.green, fore.blue, 0, back.red, back.green, back.blue, 0]
  }

  function EncodeColor(s: Settings): (b: seq<Byte>) {
    Le32(0x65) + (Le32(0xFFFF_FFF8) + (Le32(s.uin) + (PackedString(s.name) + (Be16(s.port)
      + (ColorBytes(s.fore, Swapped(s.back)) + [0])))))
  }

  function EncodeFont(s: Settings): (b: seq<Byte>) {
    Le32(VERSION_TCP) + (Le32(s.port) + (Le32(s.localIp) + (Le32(s.realIp) + ([s.mode] + (Le16(s.session)
      + (Le32(s.fontSize) + (Le32(s.fontFace) + (PackedString(s.family) + ([s.encoding] + [s.style])))))))))
  }

  function EncodeClient(c: Client): (b: seq<Byte>) {
    Le32(c.version) + (Le32(c.port) + (Le32(c.uin) + (Le32(c.ip) + (Le32(c.intIp) + ([c.mode] + (Le16(c.port)
      + (Le16(c.session) + Le32(c.handshake))))))))
  }

  function EncodeClients(cs: seq<Client>): (b: seq<Byte>) {
    if cs == [] then [] else EncodeClient(cs[0]) + EncodeClients(cs[1..])
  }

  // The number of clients is packed as one char.
  function EncodeColorFont(s: Settings, cs: seq<Client>): (b: seq<Byte>) {
    Le32(0x65) + (Le32(s.uin) + (PackedString(s.name) + (ColorBytes(s.fore, Swapped(s.back))
      + (EncodeFont(s) + ([|cs| % 0x100] + EncodeClients(cs))))))
  }

  // ----- reading: each unpack returns a value and what is left; too little left reads as 0 -----

  function U8(b: seq<Byte>): (r: (Byte, seq<Byte>)) {
    if b == [] then (0, b) else (b[0], b[1..])
  }

  function U16(b: seq<Byte>): (r: (UInt16, seq<Byte>)) {
    if |b| < 2 then (0, b) else (FromLe16(b), b[2..])
  }

  function U32(b: seq<Byte>): (r: (UInt32, seq<Byte>)) {
    if |b| < 4 then (0, b) else (FromLe32(b), b[4..])
  }

  function ShortString(b: seq<Byte>): (r: (seq<Byte>, seq<Byte>)) {
    var (n, rest) := U16(b);
    var size := if |rest| < n then |rest| else n;
    (rest[..size], rest[size..])
  }

  function Rgb(b: seq<Byte>): (r: (Color, seq<Byte>)) {
    var (red, b1) := U8(b);
    var (green, b2) := U8(b1);
    var (blue, b3) := U8(b2);
    (Color(red, green, blue), U8(b3).1)
  }

  // UnpackUnsignedShort, and the two bytes exchanged
  function Port(b: seq<Byte>): (r: (UInt16, seq<Byte>)) {
    var (n, rest) := U16(b);
    (n / 0x100 + n % 0x100 * 0x100, rest)
  }

  function DecodeColor(packet: seq<Byte>): (p: ColorPacket) {
    var b0 := U32(U32(U16(packet).1).1).1;
    var (uin, b1) := U32(b0);
    var (name, b2) := ShortString(b1);
    var (port, b3) := Port(b2);
    var (fore, b4) := Rgb(b3);
    ColorPacket(uin, name, port, fore, Rgb(b4).0)
  }

  function ReadFont(b: seq<Byte>): (r: (FontPacket, seq<Byte>)) {
    var (port, b1) := U32(U32(b).1);
    var b2 := U8(U32(U32(b1).1).1).1;
    var (session, b3) := U16(b2);
    var (size, b4) := U32(b3);
    var (face, b5) := U32(b4);
    var (family, b6) := ShortString(b5);
    var (encoding, b7) := U8(b6);
    var (style, b8) := U8(b7);
    (FontPacket(Low16(port), session, size, face, family, encoding, style), b8)
  }

  function DecodeFont(packet: seq<Byte>): (p: FontPacket) {
    ReadFont(U16(packet).1).0
  }

  function ReadClient(b: seq<Byte>): (r: (Client, seq<Byte>)) {
    var (version, b1) := U32(b);
    var (port, b2) := U16(b1);
    var (uin, b3) := U32(U16(b2).1);
    var (ip, b4) := U32(b3);
    var (intIp, b5) := U32(b4);
    var (mode, b6) := U8(b5);
    var (session, b7) := U16(U16(b6).1);
    var (handshake, b8) := U32(b7);
    (Client(version, port, uin, ip, intIp, mode, session, handshake), b8)
  }

  // The count is read as a char, above 127 a negative one, and widened to an unsigned short.
  function ClientCount(count: Byte): (n: UInt16) {
    if count < 0x80 then count else count + 0xFF00
  }

  function ReadClients(b: seq<Byte>, n: nat): (cs: seq<Client>)
    ensures |cs| == n
    decreases n
  {
    if n == 0 then [] else
      var (c, rest) := ReadClient(b);
      [c] + ReadClients(rest, n - 1)
  }

  function DecodeColorFont(packet: seq<Byte>): (p: ColorFontPacket) {
    var b0 := U32(U16(packet).1).1;
    var (uin, b1) := U32(b0);
    var (name, b2) := ShortString(b1);
    var (fore, b3) := Rgb(b2);
    var (back, b4) := Rgb(b3);
    var (font, b5) := ReadFont(b4);
    var (count, b6) := U8(b5);
    ColorFontPacket(uin, name, fore, back, font, ReadClients(b6, ClientCount(count)))
  }

  // ----- what is read is what was packed -----

  lemma ReadsU32(n: UInt32, rest: seq<Byte>)
    ensures U32(Le32(n) + rest) == (n, rest)
  {
    hide Le32;
    var b := Le32(n) + rest;
    assert b[..4] == Le32(n) && b[4..] == rest;
    assert b[0] == b[..4][0] && b[1] == b[..4][1] && b[2] == b[..4][2] && b[3] == b[..4][3];
  }

  lemma ReadsU16(n: UInt16, rest: seq<Byte>)
    ensures U16(Le16(n) + rest) == (n, rest)
  {
    hide Le16;
    var b := Le16(n) + rest;
    assert b[..2] == Le16(n) && b[2..] == rest;
    assert b[0] == b[..2][0] && b[1] == b[..2][1];
  }

  lemma ReadsU8(n: Byte, rest: seq<Byte>)
    ensures U8([n] + rest) == (n, rest)
  {
    assert ([n] + rest)[1..] == rest;
  }

  lemma ReadsPort(n: UInt16, rest: seq<Byte>)
    ensures Port(Be16(n) + rest) == (n, rest)
  {
    var low, high: Byte := n % 0x100, n / 0x100;
    var swapped: UInt16 := high + 0x100 * (low as int);
    var b := Be16(n) + rest;
    assert b[2..] == rest;
    assert FromLe16(b) == swapped;
    SwapTwice(low, high);
  }

  lemma SwapTwice(low: Byte, high: Byte)
    ensures var n := (high as int) + 0x100 * (low as int);
      n / 0x100 + n % 0x100 * 0x100 == (low as int) + 0x100 * (high as int)
  {}

  lemma ReadsString(s: seq<Byte>, rest: seq<Byte>)
    requires |s| < 0xFFFF
    ensures ShortString(PackedString(s) + rest) == (CStr(s) + [0], rest)
  {
    hide Le16, CStr, PackedLength, U16;
    var body := CStr(s) + [0];
    Assoc(Le16(PackedLength(s)), CStr(s), [0]);
    Assoc(Le16(PackedLength(s)), body, rest);
    ReadsU16(PackedLength(s), body + rest);
    TakeInLeft(body, rest, |body|);
    DropInLeft(body, rest, |body|);
    assert body[..|body|] == body && body[|body|..] + rest == rest;
  }

  lemma ReadsRgb(c: Color, rest: seq<Byte>)
    ensures Rgb([c.red, c.green, c.blue, 0] + rest) == (c, rest)
  {
    var b := [c.red, c.green, c.blue, 0] + rest;
    assert b[1..][1..][1..][1..] == rest;
  }

  lemma ReadsColors(fore: Color, back: Color, rest: seq<Byte>)
    ensures var (f, b) := Rgb(ColorBytes(fore, back) + rest); f == fore && Rgb(b) == (back, rest)
  {
    var second := [back.red, back.green, back.blue, 0];
    Assoc([fore.red, fore.green, fore.blue, 0], second, rest);
    assert ColorBytes(fore, back) == [fore.red, fore.green, fore.blue, 0] + second;
    ReadsRgb(fore, second + rest);
    ReadsRgb(back, rest);
  }

  /** The reader of a Color packet gets the name with its terminating NUL, and the
      background with green and blue exchanged; all else as it was packed. */
  lemma ColorRoundTrip(s: Settings, length: UInt16)
    requires |s.name| < 0xFFFF
    ensures DecodeColor(Le16(length) + EncodeColor(s))
      == ColorPacket(s.uin, CStr(s.name) + [0], s.port, s.fore, Swapped(s.back))
  {
    hide Le16, Le32, PackedString, Be16, ColorBytes, U16, U32, ShortString, Rgb, Port, CStr;
    var r5 := ColorBytes(s.fore, Swapped(s.back)) + [0];
    var r4 := Be16(s.port) + r5;
    var r3 := PackedString(s.name) + r4;
    var r2 := Le32(s.uin) + r3;
    var r1 := Le32(0xFFFF_FFF8) + r2;
    ReadsU16(length, EncodeColor(s));
    ReadsU32(0x65, r1);
    ReadsU32(0xFFFF_FFF8, r2);
    ReadsU32(s.uin, r3);
    ReadsString(s.name, r4);
    ReadsPort(s.port, r5);
    ReadsColors(s.fore, Swapped(s.back), [0]);
  }

  function FontOf(s: Settings): FontPacket {
    FontPacket(s.port, s.session, s.fontSize, s.fontFace, CStr(s.family) + [0], s.encoding, s.style)
  }

  lemma ReadsFont(s: Settings, rest: seq<Byte>)
    requires |s.family| < 0xFFFF
    ensures ReadFont(EncodeFont(s) + rest) == (FontOf(s), rest)
  {
    hide Le16, Le32, PackedString, U8, U16, U32, ShortString, CStr;
    var r9 := [s.style] + rest;
    var r8 := [s.encoding] + r9;
    var r7 := PackedString(s.family) + r8;
    var r6 := Le32(s.fontFace) + r7;
    var r5 := Le32(s.fontSize) + r6;
    var r4 := Le16(s.session) + r5;
    var r3 := [s.mode] + r4;
    var r2 := Le32(s.realIp) + r3;
    var r1 := Le32(s.localIp) + r2;
    var r0 := Le32(s.port) + r1;
    FontBytesInARow(s, rest);
    ReadsU32(VERSION_TCP, r0);
    ReadsU32(s.port, r1);
    ReadsU32(s.localIp, r2);
    ReadsU32(s.realIp, r3);
    ReadsU8(s.mode, r4);
    ReadsU16(s.session, r5);
    ReadsU32(s.fontSize, r6);
    ReadsU32(s.fontFace, r7);
    ReadsString(s.family, r8);
    ReadsU8(s.encoding, r9);
    ReadsU8(s.style, rest);
  }

  lemma FontBytesInARow(s: Settings, rest: seq<Byte>)
    ensures EncodeFont(s) + rest
      == Le32(VERSION_TCP) + (Le32(s.port) + (Le32(s.localIp) + (Le32(s.realIp) + ([s.mode] + (Le16(s.session)
         + (Le32(s.fontSize) + (Le32(s.fontFace) + (PackedString(s.family) + ([s.encoding] + ([s.style] + rest))))))))))
  {
    hide Le16, Le32, PackedString;
    var t8 := [s.encoding] + [s.style];
    var t7 := PackedString(s.family) + t8;
    var t6 := Le32(s.fontFace) + t7;
    var t5 := Le32(s.fontSize) + t6;
    var t4 := Le16(s.session) + t5;
    var t3 := [s.mode] + t4;
    var t2 := Le32(s.realIp) + t3;
    var t1 := Le32(s.localIp) + t2;
    var t0 := Le32(s.port) + t1;
    Assoc(Le32(VERSION_TCP), t0, rest);
    Assoc(Le32(s.port), t1, rest);
    Assoc(Le32(s.localIp), t2, rest);
    Assoc(Le32(s.realIp), t3, rest);
    Assoc([s.mode], t4, rest);
    Assoc(Le16(s.session), t5, rest);
    Assoc(Le32(s.fontSize), t6, rest);
    Assoc(Le32(s.fontFace), t7, rest);
    Assoc(PackedString(s.family), t8, rest);
    Assoc([s.encoding], [s.style], rest);
  }

  lemma FontRoundTrip(s: Settings, length: UInt16)
    requires |s.family| < 0xFFFF
    ensures DecodeFont(Le16(length) + EncodeFont(s)) == FontOf(s)
  {
    hide EncodeFont, ReadFont, FontOf, U16;
    ReadsU16(length, EncodeFont(s));
    ReadsFont(s, []);
    assert EncodeFont(s) + [] == EncodeFont(s);
  }

  lemma ReadsOneClient(c: Client, rest: seq<Byte>)
    ensures ReadClient(EncodeClient(c) + rest) == (c, rest)
  {
    hide Le16, Le32, U8, U16, U32;
    var r8 := Le32(c.handshake) + rest;
    var r7 := Le16(c.session) + r8;
    var r6 := Le16(c.port) + r7;
    var r5 := [c.mode] + r6;
    var r4 := Le32(c.intIp) + r5;
    var r3 := Le32(c.ip) + r4;
    var r2 := Le32(c.uin) + r3;
    var r1 := Le32(c.port) + r2;
    ClientBytesInARow(c, rest);
    ReadsU32(c.version, r1);
    ReadsPaddedPort(c.port, r2);
    ReadsU32(c.uin, r3);
    ReadsU32(c.ip, r4);
    ReadsU32(c.intIp, r5);
    ReadsU8(c.mode, r6);
    ReadsU16(c.port, r7);
    ReadsU16(c.session, r8);
    ReadsU32(c.handshake, rest);
  }

  // A port packed as 32 bits and read as 16, the upper half skipped.
  lemma ReadsPaddedPort(n: UInt16, rest: seq<Byte>)
    ensures var (port, b) := U16(Le32(n) + rest); port == n && U16(b).1 == rest
  {
    var b := Le32(n) + rest;
    assert Le32(n) == [n % 0x100, n / 0x100, 0, 0];
    assert b[2..][2..] == rest;
  }

  lemma ClientBytesInARow(c: Client, rest: seq<Byte>)
    ensures EncodeClient(c) + rest
      == Le32(c.version) + (Le32(c.port) + (Le32(c.uin) + (Le32(c.ip) + (Le32(c.intIp) + ([c.mode] + (Le16(c.port)
         + (Le16(c.session) + (Le32(c.handshake) + rest))))))))
  {
    hide Le16, Le32;
    var t7 := Le16(c.session) + Le32(c.handshake);
    var t6 := Le16(c.port) + t7;
    var t5 := [c.mode] + t6;
    var t4 := Le32(c.intIp) + t5;
    var t3 := Le32(c.ip) + t4;
    var t2 := Le32(c.uin) + t3;
    var t1 := Le32(c.port) + t2;
    Assoc(Le32(c.version), t1, rest);
    Assoc(Le32(c.port), t2, rest);
    Assoc(Le32(c.uin), t3, rest);
    Assoc(Le32(c.ip), t4, rest);
    Assoc(Le32(c.intIp), t5, rest);
    Assoc([c.mode], t6, rest);
    Assoc(Le16(c.port), t7, rest);
    Assoc(Le16(c.session), Le32(c.handshake), rest);
  }

  lemma {:induction false} ReadsAllClients(cs: seq<Client>)
    ensures ReadClients(EncodeClients(cs), |cs|) == cs
  {
    hide EncodeClient, ReadClient;
    if cs != [] {
      ReadsOneClient(cs[0], EncodeClients(cs[1..]));
      ReadsAllClients(cs[1..]);
    }
  }

  // The list a reader makes of a packed one.
  function ClientsHeard(cs: seq<Client>): (r: seq<Client>) {
    ReadClients(EncodeClients(cs), ClientCount(|cs| % 0x100))
  }

  /** The list of other participants arrives as packed if and only if its length is
      what its one count byte is read back as: below 128, or 65408 to 65535. */
  lemma ClientsArriveIff(cs: seq<Client>)
    ensures ClientsHeard(cs) == cs <==> |cs| < 0x80 || 0xFF80 <= |cs| < 0x1_0000
  {
    ReadsAllClients(cs);
    hide EncodeClients, ReadClients;
  }

  /** A ColorFont packet brings colours and font along as packed, and a list of others. */
  lemma ColorFontRoundTrip(s: Settings, cs: seq<Client>, length: UInt16)
    requires |s.name| < 0xFFFF && |s.family| < 0xFFFF
    ensures DecodeColorFont(Le16(length) + EncodeColorFont(s, cs))
      == ColorFontPacket(s.uin, CStr(s.name) + [0], s.fore, Swapped(s.back), FontOf(s), ClientsHeard(cs))
  {
    hide Le16, Le32, PackedString, ColorBytes, EncodeFont, ReadFont, U16, U32, U8, ShortString, Rgb, CStr, EncodeClients,
      ReadClients, FontOf;
    var count: Byte := |cs| % 0x100;
    var r5 := [count] + EncodeClients(cs);
    var r4 := EncodeFont(s) + r5;
    var r3 := ColorBytes(s.fore, Swapped(s.back)) + r4;
    var r2 := PackedString(s.name) + r3;
    var r1 := Le32(s.uin) + r2;
    ReadsU16(length, EncodeColorFont(s, cs));
    ReadsU32(0x65, r1);
    ReadsU32(s.uin, r2);
    ReadsString(s.name, r3);
    ReadsColors(s.fore, Swapped(s.back), r4);
    ReadsFont(s, r5);
    ReadsU8(count, EncodeClients(cs));
  }

  /** Fields a packet is too short for are read as zeros and empty strings. */
  lemma MissingFieldsAreZero(length: UInt16)
    ensures DecodeColor(Le16(length)) == ColorPacket(0, [], 0, Color(0, 0, 0), Color(0, 0, 0))
    ensures DecodeFont(Le16(length)) == FontPacket(0, 0, 0, 0, [], 0, 0)
    ensures DecodeColorFont(Le16(length))
      == ColorFontPacket(0, [], Color(0, 0, 0), Color(0, 0, 0), FontPacket(0, 0, 0, 0, [], 0, 0), [])
  {
    ReadsU16(length, []);
    assert Le16(length) + [] == Le16(length);
    hide Le16, FromLe16, FromLe32;
    assert U8([]) == (0, []) && U16([]) == (0, []) && U32([]) == (0, []);
    assert ShortString([]) == ([], []) && Rgb([]) == (Color(0, 0, 0), []) && Port([]) == (0, []);
    hide U8, U16, U32, ShortString, Rgb, Port;
  }
}
