/**
 File transfers whose connection may break at any moment (icq/src/filetransfer.cpp:
 449-460): what each end reports, what the receiver has got by then, and that a
 broken file can be resumed.
 */
module FileTransferBreaks {
  import opened Bytes
  import opened Sequences
  import opened FileTransfer
  import opened FileTransferRun

  // ----- the counters of an unbroken transfer -----

  predicate InsideFile(state: State) {
    state == ConfirmingFile || state == ReceivingFile
  }

  predicate BeforeBatch(state: State) {
    state == Handshake || state == WaitForClientInit
  }

  /** The receiver's counters: the files offered to it, and the batch announced to it. A file
      is closed as soon as it is complete. */
  predicate ReceiverCounts(r: Receiver, batch: seq<File>) {
    && (r.state == Disconnected <==> r.result != Running)
    && r.currentFile == |r.received| + (if InsideFile(r.state) then 1 else 0)
    && (if BeforeBatch(r.state) then r.batchFiles == r.batchSize == 0
        else r.batchFiles == |batch| && r.batchSize == BatchSize(batch) % 0x1_0000_0000)
    && (r.state == ReceivingFile ==> r.filePos < r.fileSize || r.transferred == 0)
  }

  predicate SenderCounts(s: Sender) {
    && (s.state == Disconnected <==> s.result != Running) && s.next <= |s.batch|
    && s.result == (if s.next == |s.batch| then DoneBatch else Running)
    && s.currentFile == s.next + (if s.state == SendingFile then 1 else 0)
  }

  predicate Counted(s: System) {
    ReceiverCounts(s.rcv, s.snd.batch) && SenderCounts(s.snd)
  }

  lemma ReadIsCounted(s: System)
    requires Inv(s) && Counted(s) && Enabled(s, ReceiverGetsPacket)
    ensures ReceiverCounts(ReceiverReads(s.rcv, s.toRcv[0]).0, s.snd.batch)
  {
    InvIsSafe(s);
    if s.rcv.state == WaitForClientInit {
      AnnouncementIsNext(s);
    }
    hide Inv, BatchSize;
    if s.rcv.state == ReceivingFile {
      hide Counted, Safe, Understands;
      DataIsCounted(s.rcv, s.toRcv[0], s.snd.batch);
    }
  }

  lemma AnnouncementIsNext(s: System)
    requires Inv(s) && s.rcv.state == WaitForClientInit && s.toRcv != []
    ensures s.toRcv[0] == Announcement(s.snd.batch)
  {
    hide Ledger, LastLeg, Payloads, Base, Trailer;
  }

  lemma DataIsCounted(r: Receiver, p: Packet, batch: seq<File>)
    requires ReceiverCounts(r, batch) && r.state == ReceivingFile && p.Data?
    ensures ReceiverCounts(ReceiverWrites(r, p), batch)
  {
    hide BatchSize;
  }

  lemma ReplyIsCounted(s: System)
    requires Inv(s) && Counted(s) && Enabled(s, SenderGetsPacket)
    ensures SenderCounts(SenderReads(s.snd, s.toSnd[0]).0)
  {
    InvIsSafe(s);
    if s.snd.state == Handshake {
      assert s.toSnd[0] == Shake(true) by {
        hide Ledger, LastLeg, Payloads, Base, Trailer;
      }
    }
    hide Inv, BatchSize;
  }

  lemma WriteIsCounted(s: System)
    requires Inv(s) && Counted(s) && Enabled(s, SenderWritable)
    ensures SenderCounts(SenderWrites(s.snd).0)
  {
    assert s.snd.filePos == s.snd.readPos && s.snd.fileSize == |s.snd.batch[s.snd.next]| by {
      hide Ledger, LastLeg, Payloads, Base, Trailer, AllData, NoneEmpty;
    }
    hide Inv;
  }

  lemma StepIsCounted(s: System, a: Action)
    requires Inv(s) && Counted(s)
    ensures Counted(Apply(s, a))
  {
    if Enabled(s, a) {
      match a
      case SenderGetsPacket =>
        ReplyIsCounted(s);
        BatchIsKept(s, a);
        hide Inv, SenderReads, SenderCounts, ReceiverCounts;
      case SenderWritable =>
        WriteIsCounted(s);
        BatchIsKept(s, a);
        hide Inv, SenderWrites, SenderCounts, ReceiverCounts;
      case ReceiverGetsPacket =>
        ReadIsCounted(s);
        hide Inv, ReceiverReads, SenderCounts, ReceiverCounts;
      case UserConfirms(found) => hide Inv, Base, BatchSize;
      case _ => EndIsCounted(s, a);
    }
  }

  lemma EndIsCounted(s: System, a: Action)
    requires Inv(s) && Counted(s) && Enabled(s, a) && (a.ReceiverSeesEnd? || a.SenderSeesEnd?)
    ensures Counted(Apply(s, a))
  {
    hide Ledger, Payloads, Base, Trailer, AllData, NoneEmpty, BatchSize;
  }

  lemma {:induction false} RunIsCounted(batch: seq<File>, reverse: bool, actions: seq<Action>)
    requires batch != []
    ensures Counted(RunAll(Initial(batch, reverse), actions))
    decreases |actions|
  {
    hide Inv, BatchSize;
    if actions != [] {
      hide Apply, Counted;
      RunIsCounted(batch, reverse, actions[..|actions| - 1]);
      RunKeepsInv(batch, reverse, actions[..|actions| - 1]);
      StepIsCounted(RunAll(Initial(batch, reverse), actions[..|actions| - 1]), actions[|actions| - 1]);
    }
  }

  // ----- links that break -----

  /** unanswered: whether the receiver's answer to the announcement of the batch failed to be sent. */
  datatype Link = Link(s: System, broken: bool, unanswered: bool)

  /** At any moment the connection may break: only so many of the packets on the way still
      arrive. From then on each end goes on by itself, with what it sends lost, until it
      finds out, by reading the end or by a send that fails. */
  datatype Move =
    | Acts(a: Action)
    | Breaks(arrive: nat, back: nat)
    | AnswerFails
    | ReceiverLoses
    | SenderLoses

  // What an end does on a broken connection.
  function Alone(s: System, a: Action): (t: System) {
    var t := Apply(s, a);
    t.(toRcv := if a.ReceiverGetsPacket? then t.toRcv else s.toRcv, toSnd := if a.SenderGetsPacket? then t.toSnd else s.toSnd)
  }

  predicate Possible(l: Link, m: Move) {
    match m
    case Acts(_) => true
    case Breaks(arrive, back) => !l.broken && arrive <= |l.s.toRcv| && back <= |l.s.toSnd|
    case AnswerFails => l.broken && l.s.rcv.state == WaitForClientInit && l.s.toRcv != [] && l.s.toRcv[0].ClientInit?
    case ReceiverLoses => l.broken && l.s.rcv.state != Disconnected
    case SenderLoses => l.broken && l.s.snd.state != Disconnected
  }

  function After(l: Link, m: Move): (k: Link) {
    if !Possible(l, m) then l
    else
      match m
      case Acts(a) => l.(s := if l.broken then Alone(l.s, a) else Apply(l.s, a))
      case Breaks(arrive, back) => l.(broken := true, s := l.s.(toRcv := l.s.toRcv[..arrive], toSnd := l.s.toSnd[..back]))
      case AnswerFails => l.(unanswered := true, s := l.s.(rcv := ReceiverReads(l.s.rcv, l.s.toRcv[0]).0.Close(ErrorClosed)))
      case ReceiverLoses => l.(s := l.s.(rcv := ReceiverEnds(l.s.rcv)))
      case SenderLoses => l.(s := l.s.(snd := l.s.snd.Close(ErrorClosed)))
  }

  function AfterAll(l: Link, moves: seq<Move>): (k: Link) {
    if moves == [] then l else After(AfterAll(l, moves[..|moves| - 1]), moves[|moves| - 1])
  }

  // ----- what holds on them -----

  /** The receiver reports the batch done if and only if it was announced and answered
      and every file offered was received, and a closed connection otherwise. */
  predicate ReceiverVerdict(r: Receiver, unanswered: bool) {
    r.result == if r.batchFiles > 0 && !unanswered && r.currentFile == |r.received| then DoneBatch else ErrorClosed
  }

  predicate SenderVerdict(s: Sender) {
    s.result == if s.next == |s.batch| then DoneBatch else ErrorClosed
  }

  /** Every closed file is as its delivery says; an open one holds what it held at first and
      the bytes of its source from there on, but not all of them. */
  predicate FilesAreRight(r: Receiver, found: seq<Option<File>>, batch: seq<File>) {
    var k := |r.received|;
    && k <= |found| <= |batch| && |found| <= k + 1
    && (forall i :: 0 <= i < |found| ==> Offset(found[i]) <= |batch[i]|)
    && (forall i :: 0 <= i < k ==> r.received[i] == Delivered(found[i], batch[i]))
    && (k < |found| ==>
          && Offset(found[k]) <= r.filePos <= |batch[k]| && (r.filePos < |batch[k]| || r.filePos == Offset(found[k]))
          && r.written == Base(found[k], |batch[k]|) + batch[k][Offset(found[k])..r.filePos])
  }

  lemma FilesOfTransfer(u: System)
    requires Inv(u) && Counted(u)
    ensures FilesAreRight(u.rcv, u.found, u.snd.batch)
  {
    hide LastLeg, Payloads, Base, Trailer, AllData, NoneEmpty, BatchSize, Delivered, SizeOfFirst, MovedOfFirst;
  }

  lemma VerdictOfTransfer(u: System)
    requires Inv(u) && Counted(u)
    ensures u.rcv.state == Disconnected ==> ReceiverVerdict(u.rcv, false)
    ensures u.rcv.state != Disconnected ==> ReceiverVerdict(ReceiverEnds(u.rcv), false)
    ensures u.rcv.state == WaitForClientInit ==> u.rcv.received == []
  {
    hide LastLeg, Payloads, Base, Trailer, AllData, NoneEmpty, BatchSize, Delivered, SizeOfFirst, MovedOfFirst;
  }

  // The receiver of s has read what the one of the unbroken transfer u has.
  predicate ReceiverAs(s: System, u: System) {
    && Inv(u) && Counted(u) && u.snd.batch == s.snd.batch
    && u.rcv == s.rcv && u.found == s.found && s.toRcv <= u.toRcv
  }

  predicate SenderAs(s: System, u: System) {
    Inv(u) && Counted(u) && u.snd == s.snd && s.toSnd <= u.toSnd
  }

  ghost predicate ReceiverInv(s: System, unanswered: bool) {
    || (!unanswered && exists u :: ReceiverAs(s, u))
    || (s.rcv.state == Disconnected && ReceiverVerdict(s.rcv, unanswered) && FilesAreRight(s.rcv, s.found, s.snd.batch))
  }

  ghost predicate SenderInv(s: System) {
    (exists u :: SenderAs(s, u)) || (s.snd.state == Disconnected && SenderVerdict(s.snd))
  }

  ghost predicate LinkInv(l: Link) {
    if l.broken then ReceiverInv(l.s, l.unanswered) && SenderInv(l.s)
    else Inv(l.s) && Counted(l.s) && !l.unanswered
  }

  lemma ReceiverGoesOn(s: System, u: System, a: Action)
    requires ReceiverAs(s, u) && !a.ReceiverSeesEnd?
    ensures exists v :: ReceiverAs(Alone(s, a), v)
  {
    hide Inv, Counted, ReceiverReads, SenderReads, SenderWrites, ReceiverConfirms;
    BatchIsKept(s, a);
    BatchIsKept(u, a);
    StepKeepsInv(u, a);
    StepIsCounted(u, a);
    if (a.ReceiverGetsPacket? || a.UserConfirms?) && Enabled(s, a) {
      assert s.toRcv != [] ==> u.toRcv[0] == s.toRcv[0];
      assert ReceiverAs(Alone(s, a), Apply(u, a));
    } else {
      assert ReceiverAs(Alone(s, a), u);
    }
  }

  lemma ReceiverStops(s: System, u: System)
    requires ReceiverAs(s, u) && s.rcv.state != Disconnected
    ensures var r := ReceiverEnds(s.rcv); ReceiverVerdict(r, false) && FilesAreRight(r, s.found, s.snd.batch)
  {
    VerdictOfTransfer(u);
    FilesOfTransfer(u);
    hide Inv, Counted;
  }

  lemma AnswerIsLost(s: System, u: System)
    requires ReceiverAs(s, u) && s.rcv.state == WaitForClientInit && s.toRcv != [] && s.toRcv[0].ClientInit?
    ensures var r := ReceiverReads(s.rcv, s.toRcv[0]).0.Close(ErrorClosed);
      ReceiverVerdict(r, true) && FilesAreRight(r, s.found, s.snd.batch)
  {
    FilesOfTransfer(u);
    hide Inv, Counted;
  }

  lemma SenderGoesOn(s: System, u: System, a: Action)
    requires SenderAs(s, u) && !a.SenderSeesEnd?
    ensures exists v :: SenderAs(Alone(s, a), v)
  {
    hide Inv, Counted, ReceiverReads, SenderReads, SenderWrites, ReceiverConfirms;
    StepKeepsInv(u, a);
    StepIsCounted(u, a);
    if (a.SenderGetsPacket? || a.SenderWritable?) && Enabled(s, a) {
      assert s.toSnd != [] ==> u.toSnd[0] == s.toSnd[0];
      assert SenderAs(Alone(s, a), Apply(u, a));
    } else {
      assert SenderAs(Alone(s, a), u);
    }
  }

  lemma SenderStops(s: System, u: System)
    requires SenderAs(s, u) && s.snd.state != Disconnected
    ensures SenderVerdict(s.snd.Close(ErrorClosed))
  {
    hide Inv, ReceiverCounts;
  }

  // The other end's moves are none of its business.
  lemma ReceiverIsLeftAlone(s: System, a: Action)
    requires s.rcv.state == Disconnected
    ensures var t := Alone(s, a); t.rcv == s.rcv && t.found == s.found && t.snd.batch == s.snd.batch
  {
    BatchIsKept(s, a);
    hide SenderReads, SenderWrites;
  }

  lemma SenderIsLeftAlone(s: System, a: Action)
    requires s.snd.state == Disconnected
    ensures Alone(s, a).snd == s.snd
  {
    hide ReceiverReads;
  }

  lemma ReceiverActs(s: System, unanswered: bool, a: Action)
    requires ReceiverInv(s, unanswered)
    ensures ReceiverInv(Alone(s, a), unanswered)
  {
    hide ReceiverAs, Apply, Alone;
    if !unanswered && exists u :: ReceiverAs(s, u) {
      var u :| ReceiverAs(s, u);
      if !a.ReceiverSeesEnd? {
        ReceiverGoesOn(s, u, a);
      } else {
        EndIsSeen(s, a);
        if Alone(s, a) != s {
          ReceiverStops(s, u);
        }
      }
    } else {
      ReceiverIsLeftAlone(s, a);
    }
  }

  lemma EndIsSeen(s: System, a: Action)
    requires a.ReceiverSeesEnd? || a.SenderSeesEnd?
    ensures Alone(s, a) == s || (a.ReceiverSeesEnd? && s.rcv.state != Disconnected && Alone(s, a) == s.(rcv := ReceiverEnds(s.rcv)))
      || (a.SenderSeesEnd? && s.snd.state != Disconnected && Alone(s, a) == s.(snd := s.snd.Close(ErrorClosed)))
  {}

  lemma SenderActs(s: System, a: Action)
    requires SenderInv(s)
    ensures SenderInv(Alone(s, a))
  {
    hide SenderAs, Apply, Alone;
    if exists u :: SenderAs(s, u) {
      var u :| SenderAs(s, u);
      if !a.SenderSeesEnd? {
        SenderGoesOn(s, u, a);
      } else {
        EndIsSeen(s, a);
        if Alone(s, a) != s {
          SenderStops(s, u);
        }
      }
    } else {
      SenderIsLeftAlone(s, a);
    }
  }

  lemma MoveKeepsInv(l: Link, m: Move)
    requires LinkInv(l)
    ensures LinkInv(After(l, m)) && After(l, m).s.snd.batch == l.s.snd.batch
  {
    if Possible(l, m) {
      match m
      case Acts(a) =>
        ActKeepsInv(l, a);
      case Breaks(arrive, back) =>
        BreakKeepsInv(l, arrive, back);
      case _ =>
        LossKeepsInv(l, m);
    }
  }

  lemma ActKeepsInv(l: Link, a: Action)
    requires LinkInv(l)
    ensures LinkInv(After(l, Acts(a))) && After(l, Acts(a)).s.snd.batch == l.s.snd.batch
  {
    hide Inv, Counted, ReceiverInv, SenderInv, Apply;
    BatchIsKept(l.s, a);
    if l.broken {
      ReceiverActs(l.s, l.unanswered, a);
      SenderActs(l.s, a);
    } else {
      StepKeepsInv(l.s, a);
      StepIsCounted(l.s, a);
    }
  }

  lemma BreakKeepsInv(l: Link, arrive: nat, back: nat)
    requires LinkInv(l) && Possible(l, Breaks(arrive, back))
    ensures LinkInv(After(l, Breaks(arrive, back)))
  {
    hide Inv, Counted;
    var t := After(l, Breaks(arrive, back)).s;
    assert ReceiverAs(t, l.s) && SenderAs(t, l.s);
  }

  lemma LossKeepsInv(l: Link, m: Move)
    requires LinkInv(l) && Possible(l, m) && !m.Acts? && !m.Breaks?
    ensures LinkInv(After(l, m)) && After(l, m).s.snd.batch == l.s.snd.batch
  {
    hide Inv, Counted, FilesAreRight;
    var t := After(l, m).s;
    match m
    case AnswerFails =>
      var u :| ReceiverAs(l.s, u);
      AnswerIsLost(l.s, u);
      SenderUnmoved(l.s, t);
    case ReceiverLoses =>
      var u :| ReceiverAs(l.s, u);
      ReceiverStops(l.s, u);
      SenderUnmoved(l.s, t);
    case SenderLoses =>
      var u :| SenderAs(l.s, u);
      SenderStops(l.s, u);
      ReceiverUnmoved(l.s, t, l.unanswered);
  }

  lemma SenderUnmoved(s: System, t: System)
    requires SenderInv(s) && t.snd == s.snd && t.toSnd == s.toSnd
    ensures SenderInv(t)
  {
    hide Inv, Counted;
    if exists u :: SenderAs(s, u) {
      var u :| SenderAs(s, u);
      assert SenderAs(t, u);
    }
  }

  lemma ReceiverUnmoved(s: System, t: System, unanswered: bool)
    requires ReceiverInv(s, unanswered)
    requires t.rcv == s.rcv && t.toRcv == s.toRcv && t.found == s.found && t.snd.batch == s.snd.batch
    ensures ReceiverInv(t, unanswered)
  {
    hide Inv, Counted, FilesAreRight;
    if !unanswered && exists u :: ReceiverAs(s, u) {
      var u :| ReceiverAs(s, u);
      assert ReceiverAs(t, u);
    }
  }

  lemma {:induction false} RunKeepsLink(batch: seq<File>, reverse: bool, moves: seq<Move>)
    requires batch != []
    ensures var l := AfterAll(Link(Initial(batch, reverse), false, false), moves); LinkInv(l) && l.s.snd.batch == batch
    decreases |moves|
  {
    hide Inv, Counted, After;
    if moves == [] {
      RunKeepsInv(batch, reverse, []);
      RunIsCounted(batch, reverse, []);
    } else {
      RunKeepsLink(batch, reverse, moves[..|moves| - 1]);
      hide LinkInv;
      MoveKeepsInv(AfterAll(Link(Initial(batch, reverse), false, false), moves[..|moves| - 1]), moves[|moves| - 1]);
    }
  }

  // ----- the theorems -----

  lemma ReceiverInvMeans(s: System, unanswered: bool)
    requires ReceiverInv(s, unanswered)
    ensures FilesAreRight(s.rcv, s.found, s.snd.batch)
    ensures s.rcv.state == Disconnected ==> ReceiverVerdict(s.rcv, unanswered)
  {
    hide Inv, Counted, FilesAreRight, ReceiverVerdict;
    if !unanswered && exists u :: ReceiverAs(s, u) {
      var u :| ReceiverAs(s, u);
      FilesOfTransfer(u);
      VerdictOfTransfer(u);
    }
  }

  lemma SenderInvMeans(s: System)
    requires SenderInv(s) && s.snd.state == Disconnected
    ensures SenderVerdict(s.snd)
  {
    hide Inv, ReceiverCounts;
  }

  /** Wherever the connection breaks, if it breaks: every file the receiver closed is as its
      delivery says. Once it has closed the connection it reports the batch done if and only if
      that was announced to it, and answered, and every file offered to it was received; otherwise
      that the connection was closed. The sender reports the batch done if and only if it sent
      the last chunk of the last file. */
  lemma BrokenTransfer(batch: seq<File>, reverse: bool, moves: seq<Move>)
    requires batch != []
    ensures var l := AfterAll(Link(Initial(batch, reverse), false, false), moves);
      var r, found := l.s.rcv, l.s.found;
      && FilesAreRight(r, found, batch)
      && (r.state == Disconnected ==>
            r.result == if r.batchFiles > 0 && !l.unanswered && r.currentFile == |r.received| then DoneBatch else ErrorClosed)
      && (l.s.snd.state == Disconnected ==>
            l.s.snd.result == if l.s.snd.next == |batch| then DoneBatch else ErrorClosed)
  {
    hide Inv, Counted, FilesAreRight, AfterAll;
    RunKeepsLink(batch, reverse, moves);
    var l := AfterAll(Link(Initial(batch, reverse), false, false), moves);
    if !l.broken {
      assert ReceiverAs(l.s, l.s) && SenderAs(l.s, l.s);
    }
    ReceiverInvMeans(l.s, l.unanswered);
    if l.s.snd.state == Disconnected {
      SenderInvMeans(l.s);
    }
  }

  /** A file that was being received when the connection broke can be resumed, so that a later
      transfer that finds it completes it, if and only if what had been found for it could, or had
      the full size, in which case a new file was begun. */
  lemma BrokenFileResumesIff(r: Receiver, found: seq<Option<File>>, batch: seq<File>)
    requires FilesAreRight(r, found, batch) && |found| > |r.received|
    ensures var k := |r.received|;
      && |r.written| <= |batch[k]|
      && (Resumable(Some(r.written), batch[k])
          <==> Resumable(found[k], batch[k]) || Offset(found[k]) == |batch[k]|)
  {
    var k := |r.received|;
    var source, start := batch[k], Offset(found[k]);
    if found[k].Some? && start < |source| {
      assert r.written[..start] == found[k].value;
      if found[k].value <= source {
        assert r.written == source[..r.filePos];
      }
    }
  }

  // ----- a batch that is done but not complete -----

  lemma BatchIsAnnounced(l: Link, batch: seq<File>)
    requires |batch| == 2 && l == Link(Initial(batch, false), false, false)
    ensures var k := After(After(l, Acts(ReceiverGetsPacket)), Acts(ReceiverGetsPacket));
      && !k.broken && k.s.toRcv == [] && k.s.toSnd == [SetSpeed(100), ServerInit] && k.s.snd == l.s.snd
      && k.s.rcv.state == WaitForFileInfo && k.s.rcv.received == [] && k.s.rcv.batchFiles == 2
  {
    hide BatchSize;
    var one := After(l, Acts(ReceiverGetsPacket));
    assert one.s.toRcv == [Announcement(batch)] && one.s.rcv == l.s.rcv.(state := WaitForClientInit);
  }

  lemma FileIsOffered(l: Link)
    requires !l.broken && l.s.toRcv == [] && l.s.toSnd == [SetSpeed(100), ServerInit]
    requires l.s.snd.state == WaitForServerInit && l.s.snd.next == 0 < |l.s.snd.batch|
    ensures var k := After(After(l, Acts(SenderGetsPacket)), Acts(SenderGetsPacket));
      var size := |l.s.snd.batch[0]|;
      && !k.broken && k.s.toRcv == [FileInfo(size)] && k.s.toSnd == [] && k.s.rcv == l.s.rcv
      && k.s.snd == l.s.snd.(state := WaitForStart, fileSize := size, batchPos := 0, batchTransferred := 0)
  {
    var one := After(l, Acts(SenderGetsPacket));
    assert one.s.toSnd == [ServerInit] && one.s.snd == l.s.snd;
  }

  lemma FileIsConfirmed(l: Link)
    requires !l.broken && l.s.toRcv == [FileInfo(0)] && l.s.toSnd == [] && l.s.rcv.state == WaitForFileInfo
    ensures var k := After(After(l, Acts(ReceiverGetsPacket)), Acts(UserConfirms(None)));
      && !k.broken && k.s.toRcv == [] && k.s.toSnd == [Start(0, k.s.rcv.currentFile)] && k.s.snd == l.s.snd
      && k.s.rcv.state == ReceivingFile && k.s.rcv.received == l.s.rcv.received && k.s.rcv.batchFiles == l.s.rcv.batchFiles
      && k.s.rcv.fileSize == 0
  {}

  lemma EmptyFileIsSent(l: Link, file: nat)
    requires !l.broken && l.s.toRcv == [] && l.s.toSnd == [Start(0, file)]
    requires l.s.snd.state == WaitForStart && |l.s.snd.batch| == 2 && l.s.snd.batch[0] == [] && l.s.snd.next == 0
    requires l.s.snd.fileSize == 0
    ensures var k := After(After(l, Acts(SenderGetsPacket)), Acts(SenderWritable));
      !k.broken && k.s.toRcv != [] && k.s.toRcv[0] == Data([]) && k.s.rcv == l.s.rcv
  {
    var one := After(l, Acts(SenderGetsPacket));
    assert one.s.snd.state == SendingFile && one.s.snd.filePos == 0 && one.s.toRcv == [];
  }

  lemma EmptyFileIsReceived(l: Link)
    requires !l.broken && l.s.toRcv != [] && l.s.toRcv[0] == Data([]) && l.s.rcv.state == ReceivingFile && l.s.rcv.fileSize == 0
    ensures var k := After(l, Acts(ReceiverGetsPacket));
      && !k.broken && k.s.rcv.state == WaitForFileInfo && |k.s.rcv.received| == |l.s.rcv.received| + 1
      && k.s.rcv.batchFiles == l.s.rcv.batchFiles
  {}

  // The first of two files, an empty one, is received before the connection breaks.
  function FirstFileAndBreak(): seq<Move> {
    [Acts(ReceiverGetsPacket), Acts(ReceiverGetsPacket), Acts(SenderGetsPacket), Acts(SenderGetsPacket),
      Acts(ReceiverGetsPacket), Acts(UserConfirms(None)), Acts(SenderGetsPacket), Acts(SenderWritable),
      Acts(ReceiverGetsPacket), Breaks(0, 0), ReceiverLoses]
  }

  lemma FirstFileIsOffered(batch: seq<File>)
    requires |batch| == 2 && batch[0] == []
    ensures var k := Came(Link(Initial(batch, false), false, false), FirstFileAndBreak(), 4);
      && !k.broken && k.s.toRcv == [FileInfo(0)] && k.s.toSnd == []
      && k.s.rcv.state == WaitForFileInfo && k.s.rcv.received == [] && k.s.rcv.batchFiles == 2
      && k.s.snd.state == WaitForStart && k.s.snd.batch == batch && k.s.snd.next == 0 && k.s.snd.fileSize == 0
  {
    hide BatchSize;
    var l := Link(Initial(batch, false), false, false);
    BatchIsAnnounced(l, batch);
    hide After;
    var moves := FirstFileAndBreak();
    assert Came(l, moves, 2) == After(After(l, moves[0]), moves[1]) by {
      assert Came(l, moves, 1) == After(Came(l, moves, 0), moves[0]);
    }
    assert l.s.snd.batch == batch && l.s.snd.state == WaitForServerInit && l.s.snd.next == 0 && l.s.snd.fileSize == 0;
    hide Initial;
    FileIsOffered(Came(l, moves, 2));
    assert Came(l, moves, 4) == After(After(Came(l, moves, 2), moves[2]), moves[3]);
  }

  lemma FirstFileIsReceived(l: Link)
    requires var k := Came(l, FirstFileAndBreak(), 4);
      && !k.broken && k.s.toRcv == [FileInfo(0)] && k.s.toSnd == []
      && k.s.rcv.state == WaitForFileInfo && k.s.rcv.received == [] && k.s.rcv.batchFiles == 2
      && k.s.snd.state == WaitForStart && |k.s.snd.batch| == 2 && k.s.snd.batch[0] == []
      && k.s.snd.next == 0 && k.s.snd.fileSize == 0
    ensures var k := Came(l, FirstFileAndBreak(), 9);
      !k.broken && k.s.rcv.state == WaitForFileInfo && |k.s.rcv.received| == 1 && k.s.rcv.batchFiles == 2
  {
    hide After;
    var moves := FirstFileAndBreak();
    FileIsConfirmed(Came(l, moves, 4));
    CameTwice(l, moves, 4);
    CameTwice(l, moves, 6);
    CameTwice(l, moves, 7);
    hide Came;
    EmptyFileIsSent(Came(l, moves, 6), Came(l, moves, 6).s.rcv.currentFile);
    EmptyFileIsReceived(Came(l, moves, 8));
  }

  /** A batch reported as done need not be complete: a connection that breaks between two
      files is taken for the end of the batch. */
  lemma BreakBetweenFilesIsDone() returns (batch: seq<File>, moves: seq<Move>)
    ensures batch != []
    ensures var r := AfterAll(Link(Initial(batch, false), false, false), moves).s.rcv;
      r.result == DoneBatch && |r.received| < r.batchFiles == |batch|
  {
    hide After, AfterAll, Initial;
    batch, moves := [[], []], FirstFileAndBreak();
    var l := Link(Initial(batch, false), false, false);
    FirstFileIsOffered(batch);
    FirstFileIsReceived(l);
    CameTwice(l, moves, 9);
    CameIsAfterAll(l, moves, 11);
    hide Came;
    assert moves[..11] == moves;
    LostBetweenFiles(Came(l, moves, 9));
  }

  lemma CameTwice(l: Link, moves: seq<Move>, n: nat)
    requires n + 2 <= |moves|
    ensures Came(l, moves, n + 2) == After(Came(l, moves, n + 1), moves[n + 1])
    ensures Came(l, moves, n + 1) == After(Came(l, moves, n), moves[n])
  {
    hide After;
  }

  // The link after the first n moves.
  function Came(l: Link, moves: seq<Move>, n: nat): (k: Link)
    requires n <= |moves|
  {
    if n == 0 then l else After(Came(l, moves, n - 1), moves[n - 1])
  }

  lemma {:induction false} CameIsAfterAll(l: Link, moves: seq<Move>, n: nat)
    requires n <= |moves|
    ensures AfterAll(l, moves[..n]) == Came(l, moves, n)
  {
    if n > 0 {
      CameIsAfterAll(l, moves, n - 1);
      assert moves[..n][..n - 1] == moves[..n - 1];
    }
  }

  lemma LostBetweenFiles(l: Link)
    requires !l.broken && l.s.rcv.state == WaitForFileInfo
    ensures var r := After(After(l, Breaks(0, 0)), ReceiverLoses).s.rcv; r == l.s.rcv.Close(DoneBatch)
  {}
}
