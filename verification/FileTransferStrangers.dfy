/**
 A file transfer with a peer that need not keep to the protocol (icq/src/filetransfer.cpp:
 447-821): any packets in any order. Which of them an end refuses depends only on what
 has gone before.
 */
module FileTransferStrangers {
  import opened Bytes
  import opened FileTransfer

  // ----- the receiver -----

  datatype Input = Arrives(p: Packet) | Confirmed(found: Option<File>)

  function Takes(r: Receiver, i: Input): (q: Receiver) {
    match i
    case Arrives(p) => if r.state == Disconnected then r else ReceiverReads(r, p).0
    case Confirmed(found) => ReceiverConfirms(r, found).0
  }

  function TakesAll(r: Receiver, inputs: seq<Input>): (q: Receiver) {
    if inputs == [] then r else Takes(TakesAll(r, inputs[..|inputs| - 1]), inputs[|inputs| - 1])
  }

  // Whether there has been a handshake, and an announcement of the batch behind one.
  predicate Shaken(inputs: seq<Input>) {
    inputs != [] && var i := inputs[|inputs| - 1];
      (i.Arrives? && i.p.Shake?) || Shaken(inputs[..|inputs| - 1])
  }

  predicate Announced(inputs: seq<Input>) {
    inputs != [] && var i := inputs[|inputs| - 1];
      (i.Arrives? && i.p.ClientInit? && Shaken(inputs[..|inputs| - 1])) || Announced(inputs[..|inputs| - 1])
  }

  predicate InStep(r: Receiver, shaken: bool, announced: bool) {
    && (r.result == Running <==> r.state != Disconnected)
    && (r.result == Running || r.result == ErrorHandshake)
    && (announced ==> shaken)
    && match r.state
       case Disconnected => true
       case Handshake => !shaken && r.currentFile == |r.received|
       case WaitForClientInit => shaken && !announced && r.currentFile == |r.received|
       case WaitForFileInfo => announced && r.currentFile == |r.received|
       case ConfirmingFile => announced && r.currentFile == |r.received| + 1
       case ReceivingFile => announced && r.currentFile == |r.received| + 1
       case _ => false
  }

  lemma PacketKeepsStep(r: Receiver, p: Packet, shaken: bool, announced: bool)
    requires InStep(r, shaken, announced)
    ensures InStep(Takes(r, Arrives(p)), shaken || p.Shake?, announced || (shaken && p.ClientInit?))
  {}

  lemma ConfirmationKeepsStep(r: Receiver, found: Option<File>, shaken: bool, announced: bool)
    requires InStep(r, shaken, announced)
    ensures InStep(Takes(r, Confirmed(found)), shaken, announced)
  {
    hide Base, Offset;
  }

  lemma {:induction false} ReceiverKeepsStep(inputs: seq<Input>)
    ensures InStep(TakesAll(FreshReceiver(Handshake), inputs), Shaken(inputs), Announced(inputs))
  {
    if inputs != [] {
      var before := inputs[..|inputs| - 1];
      ReceiverKeepsStep(before);
      hide Takes, InStep;
      var r := TakesAll(FreshReceiver(Handshake), before);
      match inputs[|inputs| - 1] {
        case Arrives(p) => PacketKeepsStep(r, p, Shaken(before), Announced(before));
        case Confirmed(found) => ConfirmationKeepsStep(r, found, Shaken(before), Announced(before));
      }
    }
  }

  /** Whatever has arrived and was confirmed: as long as the receiver has not closed, it refuses a packet if and only
      if, behind a handshake, the batch is not announced and the packet neither announces it nor sets
      the speed, or every file offered has been received and the packet neither offers one nor sets the
      speed nor is empty data. */
  lemma ReceiverRefusesIff(inputs: seq<Input>, p: Packet)
    requires TakesAll(FreshReceiver(Handshake), inputs).result == Running
    ensures var r := TakesAll(FreshReceiver(Handshake), inputs);
      ReceiverReads(r, p).0.result ==
        if Shaken(inputs) && !p.SetSpeed?
          && (if !Announced(inputs) then !p.ClientInit?
              else r.currentFile == |r.received| && !p.FileInfo? && p != Data([]))
        then ErrorHandshake else Running
  {
    ReceiverKeepsStep(inputs);
    hide TakesAll, Shaken, Announced;
  }

  // ----- the sender -----

  datatype Event = Reads(p: Packet) | Writes

  function Does(s: Sender, e: Event): (t: Sender) {
    match e
    case Reads(p) => if s.state == Disconnected || s.next >= |s.batch| then s else SenderReads(s, p).0
    case Writes =>
      if s.state == SendingFile && s.next < |s.batch| && s.filePos <= s.fileSize then SenderWrites(s).0 else s
  }

  function DoesAll(s: Sender, events: seq<Event>): (t: Sender) {
    if events == [] then s else Does(DoesAll(s, events[..|events| - 1]), events[|events| - 1])
  }

  predicate Accepted(events: seq<Event>) {
    events != [] && var e := events[|events| - 1];
      (e.Reads? && e.p.ServerInit?) || Accepted(events[..|events| - 1])
  }

  predicate InTurn(s: Sender, accepted: bool) {
    && s.next <= |s.batch| && (s.result == Running <==> s.state != Disconnected)
    && match s.state
       case Disconnected => true
       case WaitForServerInit => !accepted && s.currentFile == s.next < |s.batch|
       case WaitForStart => accepted && s.currentFile == s.next < |s.batch|
       case SendingFile => accepted && s.currentFile == s.next + 1 && s.next < |s.batch|
       case _ => false
  }

  lemma PacketKeepsTurn(s: Sender, p: Packet, accepted: bool)
    requires InTurn(s, accepted)
    ensures InTurn(Does(s, Reads(p)), accepted || p.ServerInit?) && Does(s, Reads(p)).batch == s.batch
  {
    hide BatchSize;
  }

  lemma WriteKeepsTurn(s: Sender, accepted: bool)
    requires InTurn(s, accepted)
    ensures InTurn(Does(s, Writes), accepted) && Does(s, Writes).batch == s.batch
  {}

  lemma {:induction false} SenderKeepsTurn(batch: seq<File>, events: seq<Event>)
    requires batch != []
    ensures var s := DoesAll(FreshSender(batch, WaitForServerInit), events);
      InTurn(s, Accepted(events)) && s.batch == batch
  {
    if events != [] {
      var before := events[..|events| - 1];
      SenderKeepsTurn(batch, before);
      hide Does, InTurn;
      var s := DoesAll(FreshSender(batch, WaitForServerInit), before);
      match events[|events| - 1] {
        case Reads(p) => PacketKeepsTurn(s, p, Accepted(before));
        case Writes => WriteKeepsTurn(s, Accepted(before));
      }
    }
  }

  /** The sender refuses a packet if and only if it neither accepts the batch nor sets the speed where
      the batch is not accepted, or neither starts a file nor sets the speed where the next file is
      offered; the second is reported as a closed connection. */
  lemma SenderRefusesIff(batch: seq<File>, events: seq<Event>, p: Packet)
    requires batch != [] && DoesAll(FreshSender(batch, WaitForServerInit), events).result == Running
    ensures var s := DoesAll(FreshSender(batch, WaitForServerInit), events);
      s.next < |s.batch| && SenderReads(s, p).0.result ==
        if p.SetSpeed? then Running
        else if !Accepted(events) then (if p.ServerInit? then Running else ErrorHandshake)
        else if s.currentFile == s.next && !p.Start? then ErrorClosed
        else Running
  {
    SenderKeepsTurn(batch, events);
    hide DoesAll, Accepted, BatchSize;
  }
}
