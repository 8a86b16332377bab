/**
 A whole file transfer: a sender and a receiver joined by two FIFO channels,
 with the receiver's user confirming each file. Every interleaving is a
 sequence of actions; the invariant says where both ends and both channels are.
 */
module FileTransferRun {
  import opened Bytes
  import opened Sequences
  import opened FileTransfer

  /** found: what stat found for each file the user has confirmed, in order. */
  datatype System = System(
    snd: Sender, rcv: Receiver, toRcv: seq<Packet>, toSnd: seq<Packet>, found: seq<Option<File>>)

  datatype Action =
    | SenderGetsPacket
    | SenderWritable
    | ReceiverGetsPacket
    | UserConfirms(found: Option<File>)
    | ReceiverSeesEnd
    | SenderSeesEnd

  /** A sender that connected has shaken hands and announced its batch; one that
      was connected to waits for the handshake that answers its request. */
  function Initial(batch: seq<File>, reverse: bool): System {
    if reverse
    then System(FreshSender(batch, Handshake), FreshReceiver(WaitForClientInit), [], [Shake(true)], [])
    else System(FreshSender(batch, WaitForServerInit), FreshReceiver(Handshake),
                [Shake(false), Announcement(batch)], [], [])
  }

  function Announcement(batch: seq<File>): Packet {
    ClientInit(|batch|, BatchSize(batch) % 0x1_0000_0000)
  }

  predicate Enabled(s: System, a: Action) {
    match a
    case SenderGetsPacket => s.snd.state != Disconnected && s.toSnd != [] && s.snd.next < |s.snd.batch|
    case SenderWritable =>
      s.snd.state == SendingFile && s.snd.next < |s.snd.batch| && s.snd.filePos <= s.snd.fileSize
    case ReceiverGetsPacket => s.rcv.state != Disconnected && s.toRcv != []
    // a local file longer than the incoming one is left out
    case UserConfirms(found) => s.rcv.state == ConfirmingFile && Offset(found) <= s.rcv.fileSize
    case ReceiverSeesEnd => s.snd.state == Disconnected && s.toRcv == [] && s.rcv.state != Disconnected
    case SenderSeesEnd => s.rcv.state == Disconnected && s.toSnd == [] && s.snd.state != Disconnected
  }

  function Apply(s: System, a: Action): (t: System) {
    if !Enabled(s, a) then s
    else
      match a
      case SenderGetsPacket =>
        var (snd, out) := SenderReads(s.snd, s.toSnd[0]);
        s.(snd := snd, toSnd := s.toSnd[1..], toRcv := s.toRcv + out)
      case SenderWritable =>
        var (snd, out) := SenderWrites(s.snd);
        s.(snd := snd, toRcv := s.toRcv + out)
      case ReceiverGetsPacket =>
        var (rcv, out) := ReceiverReads(s.rcv, s.toRcv[0]);
        s.(rcv := rcv, toRcv := s.toRcv[1..], toSnd := s.toSnd + out)
      case UserConfirms(found) =>
        var (rcv, out) := ReceiverConfirms(s.rcv, found);
        s.(rcv := rcv, toSnd := s.toSnd + out, found := s.found + [found])
      case ReceiverSeesEnd => s.(rcv := ReceiverEnds(s.rcv))
      case SenderSeesEnd => s.(snd := s.snd.Close(ErrorClosed))
  }

  function RunAll(s: System, actions: seq<Action>): (t: System) {
    if actions == [] then s else Apply(RunAll(s, actions[..|actions| - 1]), actions[|actions| - 1])
  }

  // ----- what a file ends up holding -----

  function Delivered(found: Option<File>, source: File): (r: seq<Byte>)
    requires Offset(found) <= |source|
  {
    Base(found, |source|) + source[Offset(found)..]
  }

  /** The local files a transfer completes correctly. The second is resumed. */
  predicate Resumable(found: Option<File>, source: File) {
    || found.None?
    || (|found.value| < |source| && found.value <= source)
    || (found.value == [] && source == [])
  }

  /** A received file equals its source exactly when there was no local file, or a
      strictly shorter one that the source starts with (or both are empty). A
      local file of the full length is left alone, and its new copy stays empty. */
  lemma DeliveredIffResumable(found: Option<File>, source: File)
    requires Offset(found) <= |source|
    ensures Delivered(found, source) == source <==> Resumable(found, source)
  {
    if found.Some? && |found.value| < |source| {
      var n := |found.value|;
      assert source[..n] + source[n..] == source;
      assert Delivered(found, source)[..n] == found.value;
    } else if found.None? {
      assert source[0..] == source;
    }
  }

  // ----- counters -----

  function SizeOfFirst(batch: seq<File>, k: nat): (n: nat)
    requires k <= |batch|
  {
    if k == 0 then 0 else SizeOfFirst(batch, k - 1) + |batch[k - 1]|
  }

  function MovedOfFirst(batch: seq<File>, found: seq<Option<File>>, k: nat): (n: int)
    requires k <= |batch| && k <= |found|
  {
    if k == 0 then 0 else MovedOfFirst(batch, found, k - 1) + |batch[k - 1]| - Offset(found[k - 1])
  }

  lemma {:induction false} MovedIgnoresLater(batch: seq<File>, found: seq<Option<File>>, more: Option<File>, k: nat)
    requires k <= |batch| && k <= |found|
    ensures MovedOfFirst(batch, found + [more], k) == MovedOfFirst(batch, found, k)
  {
    if k > 0 {
      MovedIgnoresLater(batch, found, more, k - 1);
    }
  }

  // ----- data in flight -----

  function Payloads(ps: seq<Packet>): (s: seq<Byte>) {
    if ps == [] then [] else (if ps[0].Data? then ps[0].bytes else []) + Payloads(ps[1..])
  }

  predicate AllData(ps: seq<Packet>) {
    forall p | p in ps :: p.Data?
  }

  predicate NoneEmpty(ps: seq<Packet>) {
    forall p | p in ps :: p != Data([])
  }

  lemma {:induction false} PayloadsOfMore(ps: seq<Packet>, b: seq<Byte>)
    ensures Payloads(ps + [Data(b)]) == Payloads(ps) + b
  {
    if ps == [] {
      assert ps + [Data(b)] == [Data(b)];
      assert Payloads([Data(b)][1..]) == [];
    } else {
      PayloadsOfMore(ps[1..], b);
      DropInLeft(ps, [Data(b)], 1);
      Assoc(if ps[0].Data? then ps[0].bytes else [], Payloads(ps[1..]), b);
    }
  }

  // ----- the invariant -----

  /** Holds in every phase: files closed so far, and the counters of both ends.
      A batch position counts a skipped offset as done from the first chunk on. */
  predicate Ledger(s: System) {
    var batch := s.snd.batch;
    var k := |s.rcv.received|;
    && batch != [] && k <= |s.found| <= |batch| && s.snd.next <= |s.found|
    && (forall i :: 0 <= i < |s.found| ==> Offset(s.found[i]) <= |batch[i]|)
    && (forall i :: 0 <= i < k ==> s.rcv.received[i] == Delivered(s.found[i], batch[i]))
    && s.rcv.batchPos == SizeOfFirst(batch, k)
         + (if s.rcv.state == ReceivingFile && s.rcv.transferred > 0 then s.rcv.filePos else 0)
    && s.rcv.batchTransferred == MovedOfFirst(batch, s.found, k)
         + (if s.rcv.state == ReceivingFile then s.rcv.transferred else 0)
    && s.snd.batchPos == SizeOfFirst(batch, s.snd.next)
         + (if s.snd.state == SendingFile && s.snd.transferred > 0 then s.snd.filePos else 0)
    && s.snd.batchTransferred == MovedOfFirst(batch, s.found, s.snd.next)
         + (if s.snd.state == SendingFile then s.snd.transferred else 0)
  }

  // Handshake and batch announcement; nothing transferred yet.
  predicate Opening(s: System) {
    && s.snd.next == 0 && s.rcv.received == [] && s.found == []
    && s.snd.result == Running && s.rcv.result == Running
    && (match s.rcv.state
        case Handshake =>
          s.snd.state == WaitForServerInit && s.toRcv == [Shake(false), Announcement(s.snd.batch)] && s.toSnd == []
        case WaitForClientInit =>
          || (s.snd.state == Handshake && s.toRcv == [] && s.toSnd == [Shake(true)])
          || (s.snd.state == WaitForServerInit && s.toRcv == [Announcement(s.snd.batch)] && s.toSnd == [])
        case WaitForFileInfo =>
          && s.snd.state == WaitForServerInit && s.toRcv == []
          && (s.toSnd == [SetSpeed(100), ServerInit] || s.toSnd == [ServerInit])
        case _ => false)
  }

  // The sender has offered file k and waits to be told where to start.
  predicate Offering(s: System) {
    var k := |s.rcv.received|;
    && s.snd.state == WaitForStart && s.snd.next == k < |s.snd.batch| && s.snd.fileSize == |s.snd.batch[k]|
    && s.snd.result == Running && s.rcv.result == Running
    && (match s.rcv.state
        case WaitForFileInfo =>
          |s.found| == k && s.toRcv == [FileInfo(|s.snd.batch[k]|)] && s.toSnd == []
        case ConfirmingFile =>
          && |s.found| == k && s.toRcv == [] && s.toSnd == []
          && s.rcv.fileSize == |s.snd.batch[k]| && s.rcv.transferred == 0
        case ReceivingFile =>
          && |s.found| == k + 1 && Position(s) && s.rcv.transferred == 0
          && s.toRcv == [] && s.toSnd == [Start(s.rcv.filePos, s.rcv.currentFile)]
        case _ => false)
  }

  // The receiver is inside file k: its position, and what the open file holds.
  predicate Position(s: System) {
    var k := |s.rcv.received|;
    && k < |s.snd.batch| && |s.found| == k + 1
    && var source, start := s.snd.batch[k], Offset(s.found[k]);
    && s.rcv.fileSize == |source| && start <= s.rcv.filePos <= |source|
    && s.rcv.filePos == start + s.rcv.transferred
    && s.rcv.written == Base(s.found[k], |source|) + source[start..s.rcv.filePos]
  }

  // The sender is inside file k as well; what it has sent is in flight or written.
  predicate Sending(s: System) {
    var k := |s.rcv.received|;
    && s.rcv.state == ReceivingFile && Position(s) && s.rcv.result == Running
    && s.snd.state == SendingFile && s.snd.next == k && s.snd.result == Running && s.toSnd == []
    && var source, start := s.snd.batch[k], Offset(s.found[k]);
    && s.snd.fileSize == |source| && s.snd.filePos == s.snd.readPos == start + s.snd.transferred
    && (s.snd.filePos < |source| || s.snd.transferred == 0)
    && s.rcv.filePos <= s.snd.filePos <= |source|
    && AllData(s.toRcv) && NoneEmpty(s.toRcv)
    && Payloads(s.toRcv) == source[s.rcv.filePos..s.snd.filePos]
  }

  // What the sender puts behind the last chunk of file k.
  function Trailer(batch: seq<File>, k: nat): seq<Packet>
    requires k < |batch|
  {
    if k + 1 < |batch| then [FileInfo(|batch[k + 1]|)] else []
  }

  predicate SenderPast(s: System, k: nat)
    requires k < |s.snd.batch|
  {
    && s.snd.next == k + 1
    && if k + 1 < |s.snd.batch|
       then s.snd.state == WaitForStart && s.snd.result == Running && s.snd.fileSize == |s.snd.batch[k + 1]|
       else s.snd.state == Disconnected && s.snd.result == DoneBatch
  }

  /** The last chunks of a file are in flight, rest still to be written, and then the trailer. */
  predicate LastLeg(ps: seq<Packet>, tail: seq<Packet>, rest: seq<Byte>) {
    && |ps| > |tail|
    && var data := ps[..|ps| - |tail|];
    && ps == data + tail && AllData(data)
    && (NoneEmpty(data) || data == [Data([])])
    && Payloads(data) == rest
  }

  // The sender is past file k; its last chunk is still in flight.
  predicate Draining(s: System) {
    var k := |s.rcv.received|;
    && s.rcv.state == ReceivingFile && Position(s) && s.rcv.result == Running && s.toSnd == []
    && SenderPast(s, k)
    && LastLeg(s.toRcv, Trailer(s.snd.batch, k), s.snd.batch[k][s.rcv.filePos..])
  }

  predicate Finished(s: System) {
    && s.snd.state == Disconnected && s.snd.result == DoneBatch && s.snd.next == |s.snd.batch|
    && |s.rcv.received| == |s.snd.batch| && s.toRcv == [] && s.toSnd == []
    && ((s.rcv.state == WaitForFileInfo && s.rcv.result == Running)
        || (s.rcv.state == Disconnected && s.rcv.result == DoneBatch))
  }

  predicate Inv(s: System) {
    Ledger(s) && (Opening(s) || Offering(s) || Sending(s) || Draining(s) || Finished(s))
  }

  // ----- every step keeps it -----

  lemma OpeningStep(s: System, a: Action)
    requires Ledger(s) && Opening(s) && Enabled(s, a)
    ensures Inv(Apply(s, a))
  {
    var t := Apply(s, a);
    assert s.snd.batch[..0] == [];
    if s.rcv.state == WaitForFileInfo && s.toSnd == [ServerInit] {
      assert Offering(t);
    } else {
      assert Opening(t);
    }
  }

  lemma OfferIsRead(s: System)
    requires Ledger(s) && Offering(s) && s.rcv.state == WaitForFileInfo
    ensures var t := Apply(s, ReceiverGetsPacket); Ledger(t) && Offering(t)
  {}

  lemma OfferIsConfirmed(s: System, found: Option<File>)
    requires Ledger(s) && Offering(s) && s.rcv.state == ConfirmingFile && Offset(found) <= s.rcv.fileSize
    ensures var t := Apply(s, UserConfirms(found)); Ledger(t) && Offering(t)
  {
    var k := |s.rcv.received|;
    MovedIgnoresLater(s.snd.batch, s.found, found, k);
    assert s.snd.batch[k][Offset(found)..Offset(found)] == [];
    assert Base(found, s.rcv.fileSize) + [] == Base(found, s.rcv.fileSize);
    hide MovedOfFirst, SizeOfFirst, Base;
    var t := Apply(s, UserConfirms(found));
    assert t.found[k] == found;
    assert forall i :: 0 <= i < k ==> t.found[i] == s.found[i];
    assert Ledger(t);
  }

  lemma StartIsRead(s: System)
    requires Ledger(s) && Offering(s) && s.rcv.state == ReceivingFile
    ensures var t := Apply(s, SenderGetsPacket); Ledger(t) && Sending(t)
  {
    hide MovedOfFirst, SizeOfFirst, Base;
    var source := s.snd.batch[|s.rcv.received|];
    assert source[s.rcv.filePos..s.rcv.filePos] == [];
  }

  lemma OfferingStep(s: System, a: Action)
    requires Ledger(s) && Offering(s) && Enabled(s, a)
    ensures Inv(Apply(s, a))
  {
    hide Ledger;
    match s.rcv.state {
      case WaitForFileInfo => OfferIsRead(s);
      case ConfirmingFile => OfferIsConfirmed(s, a.found);
      case ReceivingFile => StartIsRead(s);
      case _ =>
    }
  }

  // The bytes SendFilePacket reads next, and the packets it sends.
  function NextChunk(s: Sender): (b: seq<Byte>)
    requires s.next < |s.batch| && s.readPos <= |s.batch[s.next]|
  {
    var file := s.batch[s.next];
    file[s.readPos..if |file| - s.readPos > CHUNK then s.readPos + CHUNK else |file|]
  }

  lemma ChunkIsSent(s: System)
    requires Ledger(s) && Sending(s)
    requires |NextChunk(s.snd)| < |s.snd.batch[s.snd.next]| - s.snd.filePos
    ensures var t := Apply(s, SenderWritable); Ledger(t) && Sending(t)
  {
    ChunkKeepsLedger(s);
    ChunkKeepsSending(s);
    hide *;
  }

  lemma ChunkKeepsLedger(s: System)
    requires Ledger(s) && Sending(s)
    requires |NextChunk(s.snd)| < |s.snd.batch[s.snd.next]| - s.snd.filePos
    ensures Ledger(Apply(s, SenderWritable))
  {
    hide MovedOfFirst, SizeOfFirst, Base, Payloads, AllData, NoneEmpty, Delivered;
  }

  lemma ChunkKeepsSending(s: System)
    requires Ledger(s) && Sending(s)
    requires |NextChunk(s.snd)| < |s.snd.batch[s.snd.next]| - s.snd.filePos
    ensures Sending(Apply(s, SenderWritable))
  {
    ChunkJoins(s);
    ChunksInFlight(s);
    hide Ledger, Base, Payloads, Offset, Delivered, AllData, NoneEmpty;
  }

  lemma LastWrite(s: Sender)
    requires s.state == SendingFile && s.next < |s.batch|
    requires s.filePos == s.readPos <= s.fileSize == |s.batch[s.next]| <= s.filePos + CHUNK
    ensures var (t, out) := SenderWrites(s);
      && out == [Data(NextChunk(s))] + Trailer(s.batch, s.next)
      && t.batch == s.batch && t.next == s.next + 1
      && if s.next + 1 < |s.batch|
         then t.state == WaitForStart && t.result == s.result && t.fileSize == |s.batch[s.next + 1]|
         else t.state == Disconnected && t.result == DoneBatch
  {}

  lemma LastLegStarts(data: seq<Packet>, tail: seq<Packet>)
    requires data != [] && AllData(data) && (NoneEmpty(data) || data == [Data([])])
    ensures LastLeg(data + tail, tail, Payloads(data))
  {
    TakeInLeft(data, tail, |data|);
    assert data[..|data|] == data;
  }

  lemma ChunksInFlight(s: System)
    requires Ledger(s) && Sending(s)
    ensures var data := s.toRcv + [Data(NextChunk(s.snd))];
      AllData(data) && (NoneEmpty(data) || data == [Data([])])
  {
    if NextChunk(s.snd) == [] && s.toRcv != [] {
      FirstPayload(s.toRcv);
    }
    if s.toRcv == [] {
      assert s.toRcv + [Data(NextChunk(s.snd))] == [Data(NextChunk(s.snd))];
    }
    hide Payloads, Base;
  }

  lemma LastChunkIsSent(s: System)
    requires Ledger(s) && Sending(s)
    requires |NextChunk(s.snd)| == |s.snd.batch[s.snd.next]| - s.snd.filePos
    ensures var t := Apply(s, SenderWritable); Ledger(t) && Draining(t)
  {
    LastChunkLedger(s);
    LastChunkDrains(s);
    hide *;
  }

  lemma LastChunkDrains(s: System)
    requires Ledger(s) && Sending(s)
    requires |NextChunk(s.snd)| == |s.snd.batch[s.snd.next]| - s.snd.filePos
    ensures Draining(Apply(s, SenderWritable))
  {
    LastWrite(s.snd);
    ChunkJoins(s);
    ChunksInFlight(s);
    hide Ledger, Base, Payloads, SenderWrites, Offset, NextChunk, LastLeg, AllData, NoneEmpty;
    var source := s.snd.batch[s.snd.next];
    var chunk := [Data(NextChunk(s.snd))];
    var tail := Trailer(s.snd.batch, |s.rcv.received|);
    assert source[s.rcv.filePos..|source|] == source[s.rcv.filePos..];
    Assoc(s.toRcv, chunk, tail);
    LastLegStarts(s.toRcv + chunk, tail);
  }

  lemma LastChunkLedger(s: System)
    requires Ledger(s) && Sending(s)
    requires |NextChunk(s.snd)| == |s.snd.batch[s.snd.next]| - s.snd.filePos
    ensures Ledger(Apply(s, SenderWritable))
  {
    OneFileMore(s, |s.rcv.received|);
    LastChunkCounters(s.snd);
    hide MovedOfFirst, SizeOfFirst, Base, Payloads, AllData, NoneEmpty, Delivered, Offset, SenderWrites, NextChunk;
  }

  // What the last chunk of a file does to the sender's counters.
  lemma LastChunkCounters(s: Sender)
    requires s.state == SendingFile && s.next < |s.batch| && s.filePos == s.readPos <= s.fileSize == |s.batch[s.next]|
    requires |NextChunk(s)| == s.fileSize - s.filePos
    ensures var t := SenderWrites(s).0;
      && t.batch == s.batch && t.next == s.next + 1 && t.state != SendingFile
      && t.batchTransferred == s.batchTransferred + |NextChunk(s)|
      && t.batchPos == s.batchPos + |NextChunk(s)| + if s.transferred == 0 then s.filePos else 0
  {}

  lemma ChunkJoins(s: System)
    requires Ledger(s) && Sending(s)
    ensures var to := s.snd.filePos + |NextChunk(s.snd)|;
      && to <= |s.snd.batch[s.snd.next]|
      && Payloads(s.toRcv + [Data(NextChunk(s.snd))]) == s.snd.batch[s.snd.next][s.rcv.filePos..to]
  {
    PayloadsOfMore(s.toRcv, NextChunk(s.snd));
    var file, from, to := s.snd.batch[s.snd.next], s.snd.filePos, s.snd.filePos + |NextChunk(s.snd)|;
    assert NextChunk(s.snd) == file[from..to];
    hide Payloads, Ledger, Base, Offset, NextChunk, AllData, NoneEmpty;
    assert file[s.rcv.filePos..from] + file[from..to] == file[s.rcv.filePos..to];
  }

  lemma FirstPayload(ps: seq<Packet>)
    requires ps != [] && AllData(ps) && NoneEmpty(ps)
    ensures Payloads(ps) != []
  {
    assert ps[0] in ps;
  }

  // The receiver can write the first packet in flight: the next bytes of the file.
  predicate DataNext(s: System) {
    && Position(s) && s.rcv.state == ReceivingFile && s.toRcv != [] && s.toRcv[0].Data?
    && var b := s.toRcv[0].bytes;
    && s.rcv.filePos + |b| <= s.rcv.fileSize && (b != [] || s.rcv.filePos == s.rcv.fileSize)
    && b == s.snd.batch[|s.rcv.received|][s.rcv.filePos..s.rcv.filePos + |b|]
  }

  lemma WrittenSoFar(s: System)
    requires DataNext(s)
    ensures var k, b := |s.rcv.received|, s.toRcv[0].bytes;
      s.rcv.written + b
        == Base(s.found[k], |s.snd.batch[k]|) + s.snd.batch[k][Offset(s.found[k])..s.rcv.filePos + |b|]
  {
    var k, b := |s.rcv.received|, s.toRcv[0].bytes;
    var source, start := s.snd.batch[k], Offset(s.found[k]);
    hide Base;
    Assoc(Base(s.found[k], |source|), source[start..s.rcv.filePos], b);
    assert source[start..s.rcv.filePos] + b == source[start..s.rcv.filePos + |b|];
  }

  // What reading a data packet leaves alone.
  predicate Consumed(s: System, t: System)
    requires s.toRcv != [] && s.toRcv[0].Data?
  {
    && t.snd == s.snd && t.toSnd == s.toSnd && t.found == s.found && t.toRcv == s.toRcv[1..]
    && t.rcv.result == s.rcv.result && t.rcv.filePos == s.rcv.filePos + |s.toRcv[0].bytes|
  }

  lemma DataIsConsumed(s: System)
    requires DataNext(s)
    ensures Consumed(s, Apply(s, ReceiverGetsPacket))
  {
    hide Base, Offset;
  }

  lemma DataIsWritten(s: System)
    requires Ledger(s) && DataNext(s) && s.rcv.filePos + |s.toRcv[0].bytes| < s.rcv.fileSize
    ensures var t := Apply(s, ReceiverGetsPacket);
      Ledger(t) && Position(t) && t.rcv.state == ReceivingFile && |t.rcv.received| == |s.rcv.received|
  {
    WrittenSoFar(s);
    hide MovedOfFirst, SizeOfFirst, Base;
  }

  lemma ClosedAsDelivered(s: System)
    requires DataNext(s) && s.rcv.filePos + |s.toRcv[0].bytes| == s.rcv.fileSize
    ensures var k := |s.rcv.received|;
      s.rcv.written + s.toRcv[0].bytes == Delivered(s.found[k], s.snd.batch[k])
  {
    var k := |s.rcv.received|;
    WrittenSoFar(s);
    assert s.snd.batch[k][Offset(s.found[k])..|s.snd.batch[k]|] == s.snd.batch[k][Offset(s.found[k])..];
  }

  lemma FileIsClosed(s: System)
    requires Ledger(s) && DataNext(s) && s.rcv.filePos + |s.toRcv[0].bytes| == s.rcv.fileSize
    ensures var t := Apply(s, ReceiverGetsPacket);
      Ledger(t) && t.rcv.state == WaitForFileInfo && |t.rcv.received| == |s.rcv.received| + 1
  {
    ClosedAsDelivered(s);
    OneFileMore(s, |s.rcv.received|);
    FileIsAdded(s);
    hide MovedOfFirst, SizeOfFirst, Base, Delivered, Offset, ReceiverReads, Apply;
  }

  lemma OneFileMore(s: System, k: nat)
    requires k < |s.snd.batch| && k < |s.found|
    ensures SizeOfFirst(s.snd.batch, k + 1) == SizeOfFirst(s.snd.batch, k) + |s.snd.batch[k]|
    ensures MovedOfFirst(s.snd.batch, s.found, k + 1)
      == MovedOfFirst(s.snd.batch, s.found, k) + |s.snd.batch[k]| - Offset(s.found[k])
  {}

  // What the last packet of a file does to the receiver.
  lemma FileIsAdded(s: System)
    requires DataNext(s) && s.rcv.filePos + |s.toRcv[0].bytes| == s.rcv.fileSize
    ensures var t, b := Apply(s, ReceiverGetsPacket), s.toRcv[0].bytes;
      && t.snd == s.snd && t.found == s.found && t.rcv.state == WaitForFileInfo
      && t.rcv.received == s.rcv.received + [s.rcv.written + b]
      && t.rcv.batchTransferred == s.rcv.batchTransferred + |b|
      && t.rcv.batchPos == s.rcv.batchPos + |b| + if s.rcv.transferred == 0 then s.rcv.filePos else 0
  {
    hide Base, Offset, Delivered;
  }

  lemma HeadOfPayloads(ps: seq<Packet>, source: seq<Byte>, from: nat, to: nat)
    requires ps != [] && ps[0].Data? && from <= to <= |source|
    requires Payloads(ps) == source[from..to]
    ensures var b := ps[0].bytes;
      from + |b| <= to && b == source[from..from + |b|] && Payloads(ps[1..]) == source[from + |b|..to]
  {
    var b := ps[0].bytes;
    assert Payloads(ps) == b + Payloads(ps[1..]);
    assert Payloads(ps)[..|b|] == b && Payloads(ps)[|b|..] == Payloads(ps[1..]);
  }

  lemma SendingHead(s: System)
    requires Sending(s) && s.toRcv != []
    ensures DataNext(s) && s.rcv.filePos + |s.toRcv[0].bytes| <= s.snd.filePos
    ensures s.rcv.filePos + |s.toRcv[0].bytes| < s.rcv.fileSize
    ensures Payloads(s.toRcv[1..]) == s.snd.batch[s.snd.next][s.rcv.filePos + |s.toRcv[0].bytes|..s.snd.filePos]
  {
    assert s.toRcv[0] in s.toRcv;
    HeadOfPayloads(s.toRcv, s.snd.batch[s.snd.next], s.rcv.filePos, s.snd.filePos);
    hide Base;
  }

  lemma SendingRead(s: System)
    requires Ledger(s) && Sending(s) && s.toRcv != []
    ensures var t := Apply(s, ReceiverGetsPacket); Ledger(t) && Sending(t)
  {
    SendingHead(s);
    DataIsWritten(s);
    DataIsConsumed(s);
    hide Ledger, Payloads, Position, DataNext, Apply;
    var t := Apply(s, ReceiverGetsPacket);
    assert forall p :: p in t.toRcv ==> p in s.toRcv;
  }

  lemma LastLegHead(ps: seq<Packet>, tail: seq<Packet>, rest: seq<Byte>)
    requires LastLeg(ps, tail, rest)
    ensures ps != [] && ps[0].Data?
    ensures var b := ps[0].bytes;
      && b <= rest && (b != [] || rest == [])
      && if |b| < |rest| then LastLeg(ps[1..], tail, rest[|b|..]) else ps[1..] == tail
  {
    var data := ps[..|ps| - |tail|];
    var b, later := data[0].bytes, data[1..];
    assert data[0] == ps[0] && data[0] in data;
    assert rest == b + Payloads(later);
    DropInLeft(data, tail, 1);
    if later == [] {
      assert b + [] == b;
      assert ps[1..] == [] + tail;
    } else {
      assert forall p :: p in later ==> p in data;
      FirstPayload(later);
      LastLegStarts(later, tail);
      assert rest[|b|..] == Payloads(later);
    }
  }

  lemma LastLegReads(ps: seq<Packet>, tail: seq<Packet>, source: seq<Byte>, from: nat)
    requires from <= |source| && LastLeg(ps, tail, source[from..])
    ensures ps[0].Data?
    ensures var b := ps[0].bytes;
      && from + |b| <= |source| && b == source[from..from + |b|] && (b != [] || from == |source|)
      && if from + |b| < |source| then LastLeg(ps[1..], tail, source[from + |b|..]) else ps[1..] == tail
  {
    hide LastLeg;
    LastLegHead(ps, tail, source[from..]);
    var b := ps[0].bytes;
    assert source[from..][..|b|] == source[from..from + |b|];
    DropTwice(source, from, |b|);
  }

  lemma DrainingHead(s: System)
    requires Draining(s)
    ensures DataNext(s)
    ensures var k := |s.rcv.received|;
      var from := s.rcv.filePos + |s.toRcv[0].bytes|;
      if from < s.rcv.fileSize
      then LastLeg(s.toRcv[1..], Trailer(s.snd.batch, k), s.snd.batch[k][from..])
      else s.toRcv[1..] == Trailer(s.snd.batch, k)
  {
    var k := |s.rcv.received|;
    LastLegReads(s.toRcv, Trailer(s.snd.batch, k), s.snd.batch[k], s.rcv.filePos);
    hide LastLeg, Base, Trailer;
  }

  lemma DrainingRead(s: System)
    requires Ledger(s) && Draining(s)
    ensures var t := Apply(s, ReceiverGetsPacket); Ledger(t) && (Draining(t) || Offering(t) || Finished(t))
  {
    DrainingHead(s);
    DataIsConsumed(s);
    if s.rcv.filePos + |s.toRcv[0].bytes| < s.rcv.fileSize {
      DataIsWritten(s);
      hide Ledger, DataNext, Apply, Position, Trailer, LastLeg;
      assert Draining(Apply(s, ReceiverGetsPacket));
    } else {
      FileIsClosed(s);
      hide Ledger, DataNext, Apply, Base, Offset, LastLeg;
      var t := Apply(s, ReceiverGetsPacket);
      assert Offering(t) || Finished(t);
    }
  }

  lemma StepKeepsInv(s: System, a: Action)
    requires Inv(s)
    ensures Inv(Apply(s, a))
  {
    if Enabled(s, a) {
      if Opening(s) {
        OpeningStep(s, a);
      } else if Offering(s) {
        OfferingStep(s, a);
      } else if Sending(s) {
        if a.SenderWritable? {
          hide Ledger, Sending, Draining;
          ChunkSent(s);
        } else {
          SendingRead(s);
        }
      } else if Draining(s) {
        DrainingRead(s);
      } else {
        assert a.ReceiverSeesEnd? && Finished(Apply(s, a));
      }
    }
  }

  lemma ChunkSent(s: System)
    requires Ledger(s) && Sending(s)
    ensures var t := Apply(s, SenderWritable); Ledger(t) && (Sending(t) || Draining(t))
  {
    if |NextChunk(s.snd)| == |s.snd.batch[s.snd.next]| - s.snd.filePos {
      LastChunkIsSent(s);
    } else {
      ChunkIsSent(s);
    }
  }

  lemma {:induction false} RunKeepsInv(batch: seq<File>, reverse: bool, actions: seq<Action>)
    requires batch != []
    ensures Inv(RunAll(Initial(batch, reverse), actions))
    ensures RunAll(Initial(batch, reverse), actions).snd.batch == batch
    decreases |actions|
  {
    if actions == [] {
      assert Opening(Initial(batch, reverse));
    } else {
      var s := RunAll(Initial(batch, reverse), actions[..|actions| - 1]);
      RunKeepsInv(batch, reverse, actions[..|actions| - 1]);
      StepKeepsInv(s, actions[|actions| - 1]);
      BatchIsKept(s, actions[|actions| - 1]);
    }
  }

  lemma BatchIsKept(s: System, a: Action)
    ensures Apply(s, a).snd.batch == s.snd.batch
  {}

  // ----- the theorems -----

  /** What a reader in this state can make sense of. */
  predicate Understands(state: State, p: Packet) {
    match state
    case Handshake => p.Shake?
    case WaitForClientInit => p.ClientInit?
    case WaitForServerInit => p.SetSpeed? || p.ServerInit?
    case WaitForStart => p.Start?
    case WaitForFileInfo => p.FileInfo?
    case ReceivingFile => p.Data?
    case _ => false
  }

  /** The head of each channel suits its reader, positions are the start offset
      plus the bytes moved, and no end has failed. */
  predicate Safe(s: System) {
    && (s.toRcv != [] ==> Understands(s.rcv.state, s.toRcv[0]))
    && (s.toSnd != [] ==> Understands(s.snd.state, s.toSnd[0]))
    && (s.snd.state == SendingFile ==>
          s.snd.next < |s.found| && s.snd.filePos == Offset(s.found[s.snd.next]) + s.snd.transferred)
    && (s.rcv.state == ReceivingFile ==>
          s.found != [] && s.rcv.filePos == Offset(s.found[|s.found| - 1]) + s.rcv.transferred)
    && (s.snd.result == Running || s.snd.result == DoneBatch)
    && (s.rcv.result == Running || s.rcv.result == DoneBatch)
  }

  lemma InvIsSafe(s: System)
    requires Inv(s)
    ensures Safe(s)
  {
    hide Ledger, Payloads, Base, Offset, LastLeg, Trailer;
    if Draining(s) {
      DrainingHead(s);
      hide DataNext;
    } else if Sending(s) && s.toRcv != [] {
      assert s.toRcv[0] in s.toRcv;
    }
  }

  /** In every interleaving the packet at the head of a channel is one its
      reader's state parses, both ends keep their file position at the start
      offset plus the bytes moved, and neither end reports an error. */
  lemma TransferIsSafe(batch: seq<File>, reverse: bool, actions: seq<Action>)
    requires batch != []
    ensures Safe(RunAll(Initial(batch, reverse), actions))
  {
    RunKeepsInv(batch, reverse, actions);
    hide RunAll, Inv, Safe;
    InvIsSafe(RunAll(Initial(batch, reverse), actions));
  }

  lemma {:induction false} SizesAgree(batch: seq<File>)
    ensures SizeOfFirst(batch, |batch|) == BatchSize(batch)
  {
    if batch != [] {
      SizesAgree(batch[..|batch| - 1]);
      SizesOfPrefix(batch, |batch| - 1);
    }
  }

  lemma {:induction false} SizesOfPrefix(batch: seq<File>, k: nat)
    requires k < |batch|
    ensures SizeOfFirst(batch, k) == SizeOfFirst(batch[..|batch| - 1], k)
  {
    if k > 0 {
      SizesOfPrefix(batch, k - 1);
    }
  }

  lemma DoneIsFinished(s: System)
    requires Inv(s) && s.snd.result == DoneBatch && s.toRcv == []
    ensures Ledger(s) && Finished(s)
  {
    hide Ledger, Position, Trailer, Payloads;
  }

  lemma FinishedIsComplete(s: System)
    requires Ledger(s) && Finished(s)
    ensures var batch := s.snd.batch;
      && |s.rcv.received| == |s.found| == |batch|
      && (forall i :: 0 <= i < |batch| ==> Offset(s.found[i]) <= |batch[i]|)
      && (forall i :: 0 <= i < |batch| ==> s.rcv.received[i] == Delivered(s.found[i], batch[i]))
      && s.snd.batchPos == s.rcv.batchPos == SizeOfFirst(batch, |batch|)
      && s.snd.batchTransferred == s.rcv.batchTransferred
      && Apply(s, ReceiverSeesEnd).rcv.result == DoneBatch
  {
    hide SizeOfFirst, MovedOfFirst, Delivered, Offset;
  }

  /** When the sender is done and the receiver has read everything it sent, every
      file of the batch has arrived as its delivery says, each equals its source
      exactly when what was found locally is resumable, both batch positions are
      the size of the batch, and the receiver too ends with the batch done. */
  lemma TransferIsComplete(batch: seq<File>, reverse: bool, actions: seq<Action>)
    requires batch != []
    requires var s := RunAll(Initial(batch, reverse), actions); s.snd.result == DoneBatch && s.toRcv == []
    ensures var s := RunAll(Initial(batch, reverse), actions);
      && |s.rcv.received| == |s.found| == |batch|
      && (forall i :: 0 <= i < |batch| ==> Offset(s.found[i]) <= |batch[i]|)
      && (forall i :: 0 <= i < |batch| ==> s.rcv.received[i] == Delivered(s.found[i], batch[i]))
      && (forall i :: 0 <= i < |batch| ==> (s.rcv.received[i] == batch[i] <==> Resumable(s.found[i], batch[i])))
      && s.snd.batchPos == s.rcv.batchPos == BatchSize(batch)
      && s.snd.batchTransferred == s.rcv.batchTransferred
      && Apply(s, ReceiverSeesEnd).rcv.result == DoneBatch
  {
    hide RunAll, Initial, Inv, Ledger, Apply, BatchSize, Delivered, Resumable, Offset;
    var s := RunAll(Initial(batch, reverse), actions);
    RunKeepsInv(batch, reverse, actions);
    DoneIsFinished(s);
    SizesAgree(batch);
    FinishedIsComplete(s);
    forall i | 0 <= i < |batch|
      ensures s.rcv.received[i] == batch[i] <==> Resumable(s.found[i], batch[i])
    {
      DeliveredIffResumable(s.found[i], batch[i]);
    }
  }

  /** A file goes out in chunks of 2048 bytes and a last one of what is left, each the next
      bytes of the file. */
  lemma ChunkIs2048(batch: seq<File>, reverse: bool, actions: seq<Action>)
    requires batch != []
    requires RunAll(Initial(batch, reverse), actions).snd.state == SendingFile
    ensures var s := RunAll(Initial(batch, reverse), actions).snd;
      && s.batch == batch && s.next < |batch| && s.filePos <= |batch[s.next]|
      && var rest := batch[s.next][s.filePos..];
      && s.filePos <= s.fileSize && SenderWrites(s).1 != []
      && SenderWrites(s).1[0] == Data(if |rest| > 2048 then rest[..2048] else rest)
  {
    RunKeepsInv(batch, reverse, actions);
    hide *;
    var s := RunAll(Initial(batch, reverse), actions);
    SendingMeans(s);
    OneChunk(s.snd);
  }

  lemma SendingMeans(s: System)
    requires Inv(s) && s.snd.state == SendingFile
    ensures s.snd.next < |s.snd.batch| && s.snd.filePos == s.snd.readPos <= s.snd.fileSize == |s.snd.batch[s.snd.next]|
  {
    hide Ledger, Payloads, Base, Offset, AllData, NoneEmpty, LastLeg, Trailer;
  }

  lemma OneChunk(s: Sender)
    requires s.state == SendingFile && s.next < |s.batch| && s.filePos == s.readPos <= s.fileSize == |s.batch[s.next]|
    ensures var rest := s.batch[s.next][s.filePos..];
      SenderWrites(s).1 != [] && SenderWrites(s).1[0] == Data(if |rest| > 2048 then rest[..2048] else rest)
  {
    var file, rest := s.batch[s.next], s.batch[s.next][s.filePos..];
    assert |rest| > 2048 ==> file[s.filePos..s.filePos + 2048] == rest[..2048];
    assert file[s.filePos..|file|] == rest;
  }
}
