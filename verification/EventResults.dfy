/**
 What the four DoneEvent variants do to the list and to the event they finish
 (icq/src/icq.cpp:737-909, licq/src/event.cpp:204-222), and what FailEvents records.
 */
module EventResults {
  import opened Sequences
  import opened EventBook

  /** From b to c the n-th event has left the list with result r; nothing else differs. */
  predicate OnlyThisOneIsDone(b: Book, c: Book, n: nat, r: Result) {
    && n < |b.running|
    && c.running == b.running[..n] + b.running[n + 1..]
    && c.done == b.done + [b.running[n]]
    && c.result.Keys == b.result.Keys + {b.running[n]}
    && (forall e | e in c.result :: c.result[e] == if e == b.running[n] then r else b.result[e])
    && c.sock == b.sock && c.keys == b.keys && c.pushed == b.pushed
  }

  lemma Finished(b: Book, s: Selector, r: Result, n: nat)
    requires FirstFrom(b, s, 0) == n < |b.running|
    ensures OnlyThisOneIsDone(b, Done(b, s, r), n, r)
  {
    hide FirstFrom;
  }

  lemma FirstSelected(b: Book, s: Selector, n: nat)
    requires n < |b.running| && Selects(b, s, b.running[n])
    requires forall j :: 0 <= j < n ==> !Selects(b, s, b.running[j])
    ensures FirstFrom(b, s, 0) == n
  {
    hide Selects;
  }

  lemma NoneSelected(b: Book, s: Selector, r: Result)
    requires forall j :: 0 <= j < |b.running| ==> !Selects(b, s, b.running[j])
    ensures Done(b, s, r) == b
  {
    hide Selects;
  }

  /** A sender or a timeout finishes its own event, if that is still running. */
  lemma FinishesEvent(b: Book, e: Id, r: Result, n: nat)
    requires Known(b) && NoDuplicates(b.running)
    ensures e !in b.running ==> Done(b, ByEvent(e), r) == b
    ensures n < |b.running| && b.running[n] == e ==> OnlyThisOneIsDone(b, Done(b, ByEvent(e), r), n, r)
  {
    if e !in b.running {
      NoneSelected(b, ByEvent(e), r);
    } else if n < |b.running| && b.running[n] == e {
      FirstSelected(b, ByEvent(e), n);
      Finished(b, ByEvent(e), r, n);
    }
  }

  /** An acknowledgement finishes the first event sent on its socket with its sequence
      number, and without one changes nothing. */
  lemma AckFinishesFirst(b: Book, sd: int, sequence: nat, r: Result, n: nat)
    requires Known(b) && n <= |b.running|
    requires forall j :: 0 <= j < n ==> b.sock[b.running[j]] != sd || b.keys[b.running[j]].sequence != sequence
    requires n < |b.running| ==> b.sock[b.running[n]] == sd && b.keys[b.running[n]].sequence == sequence
    ensures var c := Done(b, BySequence(sd, sequence), r);
      if n < |b.running| then OnlyThisOneIsDone(b, c, n, r) else c == b
  {
    var s := BySequence(sd, sequence);
    if n < |b.running| {
      FirstSelected(b, s, n);
      Finished(b, s, r, n);
    } else {
      NoneSelected(b, s, r);
    }
  }

  /** A reply of the server finishes the first event with its subsequence number. */
  lemma ReplyFinishesFirst(b: Book, subSequence: nat, r: Result, n: nat)
    requires Known(b) && n <= |b.running|
    requires forall j :: 0 <= j < n ==> b.keys[b.running[j]].subSequence != subSequence
    requires n < |b.running| ==> b.keys[b.running[n]].subSequence == subSequence
    ensures var c := Done(b, BySubSequence(subSequence), r);
      if n < |b.running| then OnlyThisOneIsDone(b, c, n, r) else c == b
  {
    var s := BySubSequence(subSequence);
    if n < |b.running| {
      FirstSelected(b, s, n);
      Finished(b, s, r, n);
    } else {
      NoneSelected(b, s, r);
    }
  }

  /** Cancelling by an id finishes the first event whose id is that number's low sixteen bits. */
  lemma CancelFinishesFirst(b: Book, tag: nat, r: Result, n: nat)
    requires Known(b) && n <= |b.running|
    requires forall j :: 0 <= j < n ==> (tag - b.keys[b.running[j]].eventId) % 0x1_0000 != 0 || b.keys[b.running[j]].eventId >= 0x1_0000
    requires n < |b.running| ==>
      (tag - b.keys[b.running[n]].eventId) % 0x1_0000 == 0 && b.keys[b.running[n]].eventId < 0x1_0000
    ensures var c := Done(b, ByTag(tag), r);
      if n < |b.running| then OnlyThisOneIsDone(b, c, n, r) else c == b
  {
    var s := ByTag(tag);
    forall j | 0 <= j < |b.running|
      ensures Selects(b, s, b.running[j])
        <==> (tag - b.keys[b.running[j]].eventId) % 0x1_0000 == 0 && b.keys[b.running[j]].eventId < 0x1_0000
    {
      SameLowBits(tag, b.keys[b.running[j]].eventId);
    }
    hide Selects;
    if n < |b.running| {
      FirstSelected(b, s, n);
      Finished(b, s, r, n);
    } else {
      NoneSelected(b, s, r);
    }
  }

  lemma SameLowBits(tag: nat, id: nat)
    ensures id == tag % 0x1_0000 <==> (tag - id) % 0x1_0000 == 0 && id < 0x1_0000
  {
    var q, low := tag / 0x1_0000, tag % 0x1_0000;
    if id < 0x1_0000 && (tag - id) % 0x1_0000 == 0 {
      var k := (tag - id) / 0x1_0000;
      assert tag - id == 0x1_0000 * k && low - id == 0x1_0000 * (k - q);
    }
  }

  // ----- what FailEvents records -----

  lemma RoundRecordsError(b: Book, sd: int, reset: bool, starts: Id -> bool)
    requires Known(b) && NoDuplicates(b.running) && FirstOn(b.running, b.sock, sd) < |b.running|
    ensures var c, e := FailOne(b, sd, reset, starts), b.running[FirstOn(b.running, b.sock, sd)];
      c.result == b.result[e := Error]
  {
    hide FirstOn;
    var n := FirstOn(b.running, b.sock, sd);
    var e, rest := b.running[n], Without(b.running, n);
    WithoutIsDistinct(b.running, n);
    if reset {
      var again := Push(EraseAt(b, n, Error), e, -1, b.keys[e]);
      assert again.running[|rest|] == e;
      OnlyOneSelected(again, |rest|);
    }
  }

  /** FailEvents ends every event that was on the socket with an error, also those it sends
      again, and leaves the results of all others alone. */
  lemma {:induction false} FailedAreErrors(b: Book, sd: int, reset: bool, starts: Id -> bool, e: Id)
    requires Known(b) && NoDuplicates(b.running) && Ends(b, sd, reset, starts)
    ensures var c := Failed(b, sd, reset, starts);
      if e in b.running && b.sock[e] == sd then e in c.result && c.result[e] == Error
      else (e in c.result <==> e in b.result) && (e in c.result ==> c.result[e] == b.result[e])
    decreases |On(b.running, b.sock, sd)|
  {
    hide On, Off, FirstOn, FailOne, Known, Ends, NoDuplicates;
    if FirstOn(b.running, b.sock, sd) < |b.running| {
      FailOneShrinks(b, sd, reset, starts);
      RoundOf(b, sd, reset, starts, e);
      FailedAreErrors(FailOne(b, sd, reset, starts), sd, reset, starts, e);
    } else {
      NobodyIsOn(b, sd);
    }
  }

  lemma NobodyIsOn(b: Book, sd: int)
    requires Known(b) && FirstOn(b.running, b.sock, sd) == |b.running|
    ensures forall e | e in b.running :: b.sock[e] != sd
  {}

  // What a round says of one event.
  lemma RoundOf(b: Book, sd: int, reset: bool, starts: Id -> bool, e: Id)
    requires Known(b) && NoDuplicates(b.running) && FirstOn(b.running, b.sock, sd) < |b.running|
    ensures var c := FailOne(b, sd, reset, starts);
      if e == b.running[FirstOn(b.running, b.sock, sd)] then e in b.running && b.sock[e] == sd && e in c.result && c.result[e] == Error
      else
        && (e in c.running <==> e in b.running) && (e in b.running ==> e in c.sock && c.sock[e] == b.sock[e])
        && (e in c.result <==> e in b.result) && (e in c.result ==> c.result[e] == b.result[e])
  {
    var n := FirstOn(b.running, b.sock, sd);
    RoundShape(b, sd, reset, starts);
    RoundRecordsError(b, sd, reset, starts);
    hide FirstOn, FailOne, NoDuplicates;
    if e != b.running[n] {
      OthersStay(b, n, e, if reset && starts(b.running[n]) then [b.running[n]] else []);
    }
  }

  lemma OthersStay(b: Book, n: nat, e: Id, back: seq<Id>)
    requires n < |b.running| && e != b.running[n] && forall x | x in back :: x == b.running[n]
    ensures e in Without(b.running, n) + back <==> e in b.running
  {
    SplitOut(b.running, n);
  }

  // ----- sent and finished -----

  /** An event that was sent and is acknowledged, before anything else happens and with no
      other event of its socket and sequence number, leaves the list as it was. */
  lemma SentThenAcked(b: Book, e: Id, sd: int, k: Keys, r: Result)
    requires Known(b) && e !in b.running
    requires forall f | f in b.running :: b.sock[f] != sd || b.keys[f].sequence != k.sequence
    ensures var c := Done(Push(b, e, sd, k), BySequence(sd, k.sequence), r);
      && c.running == b.running && c.pushed == b.pushed + [e] && c.done == b.done + [e]
      && e in c.result && c.result[e] == r && c.sock == b.sock[e := sd] && c.keys == b.keys[e := k]
  {
    var p := Push(b, e, sd, k);
    var n := |b.running|;
    assert p.running[n] == e;
    assert forall j :: 0 <= j < n ==> p.running[j] == b.running[j] && b.running[j] in b.running;
    AckFinishesFirst(p, sd, k.sequence, r, n);
    assert p.running[..n] + p.running[n + 1..] == b.running;
  }

  /** An event whose thread does not start ends with an error, and the list is as it was. */
  lemma NotStarted(b: Book, e: Id, sd: int, k: Keys)
    requires Known(b) && NoDuplicates(b.running) && e !in b.running
    ensures var c := Done(Push(b, e, sd, k), ByEvent(e), Error);
      && c.running == b.running && c.pushed == b.pushed + [e] && c.done == b.done + [e]
      && e in c.result && c.result[e] == Error
  {
    var p := Push(b, e, sd, k);
    var n := |b.running|;
    assert p.running[n] == e;
    AppendIsDistinct(b.running, e);
    FinishesEvent(p, e, Error, n);
    assert p.running[..n] + p.running[n + 1..] == b.running;
  }
}
