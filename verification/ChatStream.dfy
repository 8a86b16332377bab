/**
 The byte stream of a chat connection (icq/src/chat.cpp, licq/include/licq/icq/chat.h):
 what ProcessRaw_v2 and ProcessRaw_v6 make of the bytes a peer sends.

 The parser is a step function on the state of one ChatUser, iterated until it
 has to wait for more bytes. A frame the code does not read consistently (a
 vote or a kick decision, a v6 frame shorter than its command's payload, a
 length its 16-bit pop counter cannot count) leaves the user astray: nothing
 is claimed about what the code does from there on.
 */
module ChatStream {
  import opened Bytes

  const COLOR_FG: Byte := 0x00
  const COLOR_BG: Byte := 0x01
  const KICK: Byte := 0x02
  const FOCUS_IN: Byte := 0x03
  const FOCUS_OUT: Byte := 0x04
  const KICK_YES: Byte := 0x05
  const KICK_NO: Byte := 0x06
  const BEEP: Byte := 0x07
  const BACKSPACE: Byte := 0x08
  const KICK_PASS: Byte := 0x09
  const DISCONNECTION: Byte := 0x0B
  const DISCONNECTION_KICKED: Byte := 0x0C
  const NEWLINE: Byte := 0x0D
  const KICK_YOU: Byte := 0x0E
  const KICK_FAIL: Byte := 0x0F
  const FONT_FAMILY: Byte := 0x10
  const FONT_FACE: Byte := 0x11
  const FONT_SIZE: Byte := 0x12
  const SLEEP_OFF: Byte := 0x16
  const SLEEP_ON: Byte := 0x17
  const LAUGH: Byte := 0x1A
  const CHARACTER: Byte := 0x7E

  datatype Dialect = V2 | V6

  datatype Color = Color(red: Byte, green: Byte, blue: Byte)

  // The argument of gTranslator.toUtf8: bytes and the font encoding in force.
  datatype Text = Text(raw: seq<Byte>, encoding: Byte)

  datatype Event = Event(command: Byte, data: Text)

  const NOTHING := Text([], 0)

  /** What a peer has set on its ChatUser: the line being typed, colours, font and flags. */
  datatype Looks = Looks(
    line: seq<Byte>, fore: Color, back: Color, family: Text, encoding: Byte, style: Byte,
    size: UInt16, face: nat, focus: bool, sleep: bool, toKick: nat)

  /** A ChatUser as the parser sees it, with the events pushed so far. */
  datatype User = User(queue: seq<Byte>, looks: Looks, events: seq<Event>, astray: bool) {
    function Receive(chunk: seq<Byte>): User {
      this.(queue := queue + chunk)
    }
  }

  // iscntrl in the C locale
  predicate IsControl(b: Byte) {
    b < 0x20 || b == 0x7F
  }

  // An int with bit 31 set, widened to unsigned long.
  function SignExtended(n: UInt32): nat {
    if n < 0x8000_0000 then n else n + 0xFFFF_FFFF_0000_0000
  }

  // The length of the run of printable bytes at the head of a queue.
  function RunLength(q: seq<Byte>): (n: nat)
    ensures n <= |q|
    ensures forall i :: 0 <= i < n ==> !IsControl(q[i])
    ensures n < |q| ==> IsControl(q[n])
  {
    if q == [] || IsControl(q[0]) then 0 else 1 + RunLength(q[1..])
  }

  // ----- framing -----

  /**
   What stands at the head of a non-empty queue: bytes to wait for, a frame the
   code loses itself in, a command with its payload and the bytes it uses up,
   one of the two line-editing keys, text, or a control character to skip.
   */
  datatype Head =
    | Partial
    | Unreadable
    | Command(code: Byte, payload: seq<Byte>, used: nat)
    | Key(key: Byte)
    | Printable(run: seq<Byte>)
    | Ignored

  function HeadOf(d: Dialect, q: seq<Byte>): (h: Head)
    requires q != []
    ensures h.Command? ==> 0 < h.used <= |q| && h.used < 0x1_0006
    ensures h.Command? ==> |h.payload| >= NeededPayload(h.code, h.payload)
    ensures h.Printable? ==> 0 < |h.run| == RunLength(q) && h.run == q[..|h.run|]
  {
    if d == V6 then HeadV6(q) else HeadV2(q)
  }

  // The bytes a command's handler reads from its payload.
  function NeededPayload(code: Byte, payload: seq<Byte>): (n: nat) {
    if code == COLOR_FG || code == COLOR_BG then 3
    else if code == FONT_FACE || code == FONT_SIZE || code == KICK then 4
    else if code == FONT_FAMILY then
      if |payload| < 2 then 4 else FromLe16(payload) + 4
    else 0
  }

  predicate IsVerdict(code: Byte) {
    code == KICK_YES || code == KICK_NO || code == KICK_PASS
  }

  function HeadV6(q: seq<Byte>): (h: Head)
    requires q != []
    ensures h.Command? ==> 0 < h.used <= |q| && h.used < 0x1_0006
    ensures h.Command? ==> |h.payload| >= NeededPayload(h.code, h.payload)
    ensures h.Printable? ==> 0 < |h.run| == RunLength(q) && h.run == q[..|h.run|]
  {
    if q[0] == 0 then
      if |q| < 6 then Partial
      else
        var size := SignExtended(FromLe32(q[2..6]));
        if |q| < (6 + size) % 0x1_0000_0000_0000_0000 then Partial
        else
          // the declared size of a font family counts the byte after the frame, which stays
          var length := if q[1] == FONT_FAMILY then size - 1 else size;
          if !(0 <= length < 0x1_0000) || IsVerdict(q[1]) then Unreadable
          else
            var needed := NeededPayload(q[1], q[6..6 + size]);
            if size < needed then Unreadable
            else Command(q[1], q[6..6 + if q[1] == FONT_FAMILY then needed else size], 6 + length)
    else if q[0] == NEWLINE || q[0] == BACKSPACE then Key(q[0])
    else if IsControl(q[0]) then Ignored
    else Printable(q[..RunLength(q)])
  }

  // Total length of a v2 command, 0 when it cannot be told yet or is not a command.
  function LengthV2(q: seq<Byte>): (n: nat)
    requires q != []
  {
    var c := q[0];
    if c == COLOR_FG || c == COLOR_BG || c == FONT_FACE || c == FONT_SIZE then 5
    else if c == KICK || c == KICK_YES || c == KICK_NO then 4
    else if c == KICK_PASS || c == KICK_FAIL then 6
    else if c == KICK_YOU then 2
    else if c == FONT_FAMILY then
      if |q| < 3 then 0 else FromLe16(q[1..3]) + 5
    else if c in {BEEP, LAUGH, FOCUS_IN, FOCUS_OUT, SLEEP_OFF, SLEEP_ON, DISCONNECTION_KICKED, DISCONNECTION} then 1
    else 0
  }

  function HeadV2(q: seq<Byte>): (h: Head)
    requires q != []
    ensures h.Command? ==> 0 < h.used <= |q| && h.used < 0x1_0006
    ensures h.Command? ==> |h.payload| >= NeededPayload(h.code, h.payload)
    ensures h.Printable? ==> 0 < |h.run| == RunLength(q) && h.run == q[..|h.run|]
  {
    var c := q[0];
    var n := LengthV2(q);
    if c == NEWLINE || c == BACKSPACE then Key(c)
    else if n == 0 then
      if c == FONT_FAMILY then Partial else if IsControl(c) then Ignored
      else Printable(q[..RunLength(q)])
    else if |q| < n then Partial
    else if n >= 0x1_0000 || IsVerdict(c) then Unreadable
    // the v2 kick reads its UIN from the command byte on
    else Command(c, if c == KICK then q[..n] else q[1..n], n)
  }

  // ----- one step -----

  function CommandLooks(code: Byte, p: seq<Byte>, l: Looks): (r: Looks)
    requires |p| >= NeededPayload(code, p)
  {
    if code == COLOR_FG then l.(fore := Color(p[0], p[1], p[2]))
    else if code == COLOR_BG then l.(back := Color(p[0], p[1], p[2]))
    else if code == FONT_FAMILY then
      var n := FromLe16(p);
      l.(family := Text(p[2..2 + n], l.encoding), encoding := p[n + 2], style := p[n + 3])
    else if code == FONT_FACE then l.(face := SignExtended(FromLe32(p)))
    else if code == FONT_SIZE then l.(size := Low16(FromLe32(p)))
    else if code == FOCUS_IN then l.(focus := true)
    else if code == FOCUS_OUT then l.(focus := false)
    else if code == SLEEP_OFF then l.(sleep := false)
    else if code == SLEEP_ON then l.(sleep := true)
    else if code == KICK then l.(toKick := SignExtended(FromLe32(p)))
    else l
  }

  // Commands that push an event of their own code; the others are silent.
  predicate Announced(code: Byte) {
    code in {COLOR_FG, COLOR_BG, FONT_FAMILY, FONT_FACE, FONT_SIZE, FOCUS_IN, FOCUS_OUT, SLEEP_OFF, SLEEP_ON,
      KICK, BEEP, LAUGH, KICK_FAIL, KICK_YOU, DISCONNECTION_KICKED}
  }

  predicate Complete(h: Head) {
    h.Command? ==> |h.payload| >= NeededPayload(h.code, h.payload)
  }

  function NextLooks(h: Head, l: Looks): (r: Looks)
    requires Complete(h)
  {
    match h
    case Command(code, payload, _) => CommandLooks(code, payload, l)
    case Key(key) =>
      if key == NEWLINE || l.line == [] then l.(line := []) else l.(line := l.line[..|l.line| - 1])
    case Printable(run) => l.(line := l.line + run)
    case _ => l
  }

  function News(h: Head, l: Looks): (r: seq<Event>) {
    match h
    case Command(code, _, _) => if Announced(code) then [Event(code, NOTHING)] else []
    case Key(key) =>
      if key == NEWLINE then [Event(NEWLINE, Text(l.line, l.encoding))] else [Event(BACKSPACE, NOTHING)]
    case Printable(run) => [Event(CHARACTER, Text(run, l.encoding))]
    case _ => []
  }

  function Used(h: Head): (n: nat) {
    match h
    case Command(_, _, used) => used
    case Printable(run) => |run|
    case Partial => 0
    case Unreadable => 0
    case _ => 1
  }

  predicate Waits(d: Dialect, u: User) {
    u.astray || u.queue == [] || HeadOf(d, u.queue).Partial?
  }

  /** What the parser handles next. With greedy, text is taken a whole run at a
      time, as the code does; without, one byte at a time. */
  function Next(d: Dialect, greedy: bool, q: seq<Byte>): (h: Head)
    requires q != []
    ensures Complete(h) && Used(h) <= |q|
    ensures h.Partial? || h.Unreadable? || 0 < Used(h)
  {
    var h := HeadOf(d, q);
    if h.Printable? && !greedy then Printable(q[..1]) else h
  }

  /** The state once h has been handled. */
  function Advance(h: Head, u: User): (v: User)
    requires Complete(h) && Used(h) <= |u.queue|
  {
    if h.Unreadable? then u.(astray := true)
    else User(u.queue[Used(h)..], NextLooks(h, u.looks), u.events + News(h, u.looks), u.astray)
  }

  /** One round of the parser's outer loop. */
  function Step(d: Dialect, greedy: bool, u: User): (v: User)
    requires !Waits(d, u)
    ensures v.astray || |v.queue| < |u.queue|
  {
    Advance(Next(d, greedy, u.queue), u)
  }

  function Run(d: Dialect, greedy: bool, u: User): (v: User)
    ensures Waits(d, v)
    decreases if u.astray then 0 else 1 + |u.queue|
  {
    if Waits(d, u) then u else Run(d, greedy, Step(d, greedy, u))
  }
}
