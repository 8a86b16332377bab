/**
 A file transfer always ends: in every reachable state short of the end some
 action is possible, and every action uses up part of a finite amount of work.
 */
module FileTransferEnds {
  import opened Bytes
  import opened FileTransfer
  import opened FileTransferRun

  // Twice the bytes and a constant for every file from k on.
  function ToSend(batch: seq<File>, k: nat): (n: nat)
    requires k <= |batch|
    decreases |batch| - k
  {
    if k == |batch| then 0 else 2 * |batch[k]| + 6 + ToSend(batch, k + 1)
  }

  function SenderWork(s: Sender): (n: int)
    requires s.next <= |s.batch|
  {
    (match s.state case Handshake => 8 case WaitForServerInit => 4 case _ => 0)
    + if s.state == SendingFile && s.next < |s.batch|
      then 2 * (s.fileSize - s.filePos) + 4 + ToSend(s.batch, s.next + 1)
      else ToSend(s.batch, s.next)
  }

  function ReceiverWork(r: Receiver): (n: nat) {
    match r.state
    case Handshake => 11
    case WaitForClientInit => 10
    case WaitForFileInfo => 4
    case ConfirmingFile => 2
    case _ => 0
  }

  function Work(s: System): (n: int)
    requires s.snd.next <= |s.snd.batch|
  {
    |s.toRcv| + |s.toSnd| + 10 * (|s.snd.batch| - |s.rcv.received|) + ReceiverWork(s.rcv) + SenderWork(s.snd)
  }

  lemma WorkIsNotNegative(s: System)
    requires Inv(s)
    ensures Work(s) >= 0
  {
    hide LastLeg, Payloads, MovedOfFirst, SizeOfFirst, Base, Delivered;
  }

  lemma SenderWriteWorks(s: System)
    requires Ledger(s) && Sending(s)
    ensures var t := Apply(s, SenderWritable);
      t.snd.next <= |t.snd.batch| && Work(t) < Work(s)
  {
    hide Payloads, MovedOfFirst, SizeOfFirst, Base, Delivered, Ledger;
    var k := s.snd.next;
    assert ToSend(s.snd.batch, k) == 2 * |s.snd.batch[k]| + 6 + ToSend(s.snd.batch, k + 1);
  }

  lemma DataReadWorks(s: System)
    requires DataNext(s) && Ledger(s)
    ensures var t := Apply(s, ReceiverGetsPacket);
      t.snd.next <= |t.snd.batch| && Work(t) < Work(s)
  {
    hide Payloads, MovedOfFirst, SizeOfFirst, Base, Delivered, ToSend;
  }

  lemma OpeningWorks(s: System, a: Action)
    requires Ledger(s) && Opening(s) && Enabled(s, a)
    ensures var t := Apply(s, a); t.snd.next <= |t.snd.batch| && Work(t) < Work(s)
  {
    hide Payloads, MovedOfFirst, SizeOfFirst, Base, Delivered, BatchSize, ToSend;
  }

  lemma OfferingWorks(s: System, a: Action)
    requires Ledger(s) && Offering(s) && Enabled(s, a)
    ensures var t := Apply(s, a); t.snd.next <= |t.snd.batch| && Work(t) < Work(s)
  {
    hide Payloads, MovedOfFirst, SizeOfFirst, Base, Delivered, BatchSize;
    var k := s.snd.next;
    assert ToSend(s.snd.batch, k) == 2 * |s.snd.batch[k]| + 6 + ToSend(s.snd.batch, k + 1);
  }

  /** Every action that is possible uses up work. */
  lemma EveryActionWorks(s: System, a: Action)
    requires Inv(s) && Enabled(s, a)
    ensures var t := Apply(s, a); t.snd.next <= |t.snd.batch| && 0 <= Work(t) < Work(s)
  {
    StepKeepsInv(s, a);
    WorkIsNotNegative(Apply(s, a));
    hide Work, Ledger, Inv, LastLeg, Payloads;
    if Opening(s) {
      OpeningWorks(s, a);
    } else if Offering(s) {
      OfferingWorks(s, a);
    } else if Sending(s) {
      if a.SenderWritable? {
        SenderWriteWorks(s);
      } else {
        SendingHead(s);
        DataReadWorks(s);
      }
    } else if Draining(s) {
      DrainingHead(s);
      DataReadWorks(s);
    } else {
      FinishedWorks(s, a);
    }
  }

  lemma FinishedWorks(s: System, a: Action)
    requires Finished(s) && Enabled(s, a)
    ensures var t := Apply(s, a); t.snd.next <= |t.snd.batch| && Work(t) < Work(s)
  {}

  // Both ends have closed with the batch done.
  predicate Over(s: System) {
    Finished(s) && s.rcv.state == Disconnected
  }

  /** No reachable state short of the end is stuck. */
  lemma SomethingIsPossible(s: System)
    requires Inv(s) && !Over(s)
    ensures exists a :: Enabled(s, a)
  {
    hide Ledger, LastLeg, Payloads, Base, Trailer;
    if Opening(s) {
      assert Enabled(s, if s.toRcv != [] then ReceiverGetsPacket else SenderGetsPacket) by {
        NonEmptyBatch(s);
      }
    } else if Offering(s) {
      assert Enabled(s, match s.rcv.state
        case WaitForFileInfo => ReceiverGetsPacket
        case ConfirmingFile => UserConfirms(None)
        case _ => SenderGetsPacket);
    } else if Sending(s) {
      assert Enabled(s, SenderWritable);
    } else if Draining(s) {
      DrainingHead(s);
      assert Enabled(s, ReceiverGetsPacket);
    } else {
      assert Enabled(s, ReceiverSeesEnd);
    }
  }

  lemma NonEmptyBatch(s: System)
    requires Ledger(s)
    ensures s.snd.batch != []
  {}

  // A run in which every action was possible when it was taken.
  predicate Proper(s: System, actions: seq<Action>)
    decreases |actions|
  {
    actions == [] ||
    (Proper(s, actions[..|actions| - 1]) && Enabled(RunAll(s, actions[..|actions| - 1]), actions[|actions| - 1]))
  }

  /** A transfer cannot go on for ever: a run has at most as many actions as there
      was work at the start, and one that can take no further action is over. */
  lemma {:induction false} TransferEnds(batch: seq<File>, reverse: bool, actions: seq<Action>)
    requires batch != [] && Proper(Initial(batch, reverse), actions)
    ensures var s := RunAll(Initial(batch, reverse), actions);
      && s.snd.next <= |s.snd.batch|
      && |actions| + Work(s) <= Work(Initial(batch, reverse))
      && 0 <= Work(s)
      && ((forall a :: !Enabled(s, a)) ==> Over(s))
    decreases |actions|
  {
    var s := RunAll(Initial(batch, reverse), actions);
    RunKeepsInv(batch, reverse, actions);
    WorkIsNotNegative(s);
    if actions != [] {
      var before := actions[..|actions| - 1];
      RunKeepsInv(batch, reverse, before);
      TransferEnds(batch, reverse, before);
      hide Inv, Work, Enabled, Apply, Over;
      EveryActionWorks(RunAll(Initial(batch, reverse), before), actions[|actions| - 1]);
    }
    hide Inv, Work, Enabled, Apply, Over;
    if forall a :: !Enabled(s, a) {
      if !Over(s) {
        SomethingIsPossible(s);
      }
    }
  }
}
