/**
 Votes on kicking a user out of a chat (icq/src/chat.cpp:2035-2054, 1697-1755 and,
 for the older dialect, 1410-1470; icq/src/chat.h:46-54). The user who asks counts
 as a yes, the user to be kicked as a no, and every answer is one more.
 */
module KickVote {
  import opened Sequences
  import opened Bytes

  datatype Vote = Vote(uin: nat, numUsers: UInt16, yes: UInt16, no: UInt16)

  datatype Verdict = Open(v: Vote) | Decided(v: Vote, passed: bool)

  function Started(uin: nat, users: UInt16): (v: Vote) {
    Vote(uin, users, 1, 1)
  }

  function Majority(v: Vote): (n: nat) {
    v.numUsers / 2 + 1
  }

  // One answer; the counters are unsigned shorts.
  function Count(v: Vote, yes: bool): (r: Verdict) {
    var w := if yes then v.(yes := (v.yes + 1) % 0x1_0000) else v.(no := (v.no + 1) % 0x1_0000);
    if (if yes then w.yes else w.no) == Majority(w) then Decided(w, yes)
    else if w.yes + w.no == w.numUsers then Decided(w, false)
    else Open(w)
  }

  // Answers one after the other until the vote is decided; used is how many it took.
  function Poll(v: Vote, ballots: seq<bool>): (r: (Verdict, nat))
    ensures r.1 <= |ballots| && (r.0.Open? ==> r.1 == |ballots|)
    decreases |ballots|
  {
    if ballots == [] then (Open(v), 0)
    else match Count(v, ballots[0])
      case Decided(w, passed) => (Decided(w, passed), 1)
      case Open(w) => var r := Poll(w, ballots[1..]); (r.0, r.1 + 1)
  }

  function Yeas(ballots: seq<bool>): (n: nat)
    ensures n <= |ballots|
  {
    if ballots == [] then 0 else (if ballots[0] then 1 else 0) + Yeas(ballots[1..])
  }

  /** What every undecided vote among at least two users is like. */
  predicate Live(v: Vote) {
    && v.numUsers >= 2 && 1 <= v.yes < Majority(v) && 1 <= v.no < Majority(v)
    && (v.yes + v.no == 2 || v.yes + v.no < v.numUsers)
  }

  function Longest(users: nat): nat {
    if users < 3 then 1 else users - 2
  }

  function YesOf(b: bool): nat {
    if b then 1 else 0
  }

  lemma CountKeepsLive(v: Vote, b: bool)
    requires Live(v)
    ensures var r := Count(v, b);
      && r.v.uin == v.uin && r.v.numUsers == v.numUsers
      && r.v.yes == v.yes + YesOf(b) && r.v.no == v.no + YesOf(!b)
      && r.v.yes + r.v.no <= Longest(v.numUsers) + 2
      && match r
         case Open(w) => Live(w) && w.yes + w.no < w.numUsers
         case Decided(w, passed) =>
           && (passed <==> 2 * w.yes > w.numUsers)
           && (!passed ==> 2 * w.no > w.numUsers || w.yes + w.no == w.numUsers)
  {}

  lemma {:induction false} PollOfLive(v: Vote, ballots: seq<bool>)
    requires Live(v)
    ensures var (r, used) := Poll(v, ballots);
      && r.v.uin == v.uin && r.v.numUsers == v.numUsers
      && r.v.yes == v.yes + Yeas(ballots[..used]) && r.v.no == v.no + used - Yeas(ballots[..used])
      && (used > 0 ==> v.yes + v.no + used <= Longest(v.numUsers) + 2)
      && match r
         case Open(w) => Live(w) && (ballots != [] ==> w.yes + w.no < w.numUsers)
         case Decided(w, passed) =>
           && used > 0 && (passed <==> 2 * w.yes > w.numUsers)
           && (!passed ==> 2 * w.no > w.numUsers || w.yes + w.no == w.numUsers)
    decreases |ballots|
  {
    hide Count, Live, Yeas, Longest, YesOf;
    if ballots == [] {
      NoYeas();
      assert ballots[..0] == [];
      LiveIsSmall(v);
    } else {
      var b, rest := ballots[0], ballots[1..];
      CountKeepsLive(v, b);
      YesOrNo(b);
      YeasOfTake(ballots, 1);
      assert rest[..0] == [];
      NoYeas();
      var r := Count(v, b);
      if r.Open? {
        PollOfLive(r.v, rest);
        YeasOfTake(ballots, Poll(r.v, rest).1 + 1);
      }
    }
  }

  lemma NoYeas()
    ensures Yeas([]) == 0
  {}

  lemma YesOrNo(b: bool)
    ensures YesOf(b) + YesOf(!b) == 1
  {}

  lemma LiveIsSmall(v: Vote)
    requires Live(v)
    ensures v.yes + v.no <= Longest(v.numUsers) + 2
  {}

  lemma YeasOfTake(ballots: seq<bool>, n: nat)
    requires 1 <= n <= |ballots|
    ensures Yeas(ballots[..n]) == YesOf(ballots[0]) + Yeas(ballots[1..][..n - 1])
  {
    assert ballots[..n][1..] == ballots[1..][..n - 1];
  }

  /** It is decided by the time max(1, n - 2) have answered; it passes exactly when
      those in favour at that moment, the asker with them, outnumber half the users. */
  lemma DecidedVote(uin: nat, n: UInt16, ballots: seq<bool>)
    requires n >= 2 && |ballots| >= Longest(n)
    ensures var (r, used) := Poll(Started(uin, n), ballots);
      && r.Decided? && 1 <= used <= Longest(n)
      && (r.passed <==> 2 * (1 + Yeas(ballots[..used])) > n)
      && (!r.passed ==> 2 * (1 + used - Yeas(ballots[..used])) > n || used + 2 == n)
  {
    PollOfLive(Started(uin, n), ballots);
  }

  // Once decided, more answers change nothing, and before that nothing was decided.
  lemma {:induction false} DecidedOnce(v: Vote, ballots: seq<bool>, more: seq<bool>)
    ensures Poll(v, ballots).0.Decided? ==> Poll(v, ballots + more) == Poll(v, ballots)
    ensures Poll(v, ballots).0.Open? ==>
      var (r, used) := Poll(Poll(v, ballots).0.v, more);
      Poll(v, ballots + more) == (r, |ballots| + used)
    decreases |ballots|
  {
    if ballots == [] {
      assert ballots + more == more;
    } else {
      DropInLeft(ballots, more, 1);
      var r := Count(v, ballots[0]);
      if r.Open? {
        DecidedOnce(r.v, ballots[1..], more);
      }
    }
  }

  /** With fewer than two users the counters start at or past the majority, and no
      number of answers a vote can get decides it until a counter overflows. */
  lemma {:induction false} TooFewUsers(v: Vote, ballots: seq<bool>)
    requires v.numUsers < 2 && 1 <= v.yes && 1 <= v.no && v.yes + v.no + |ballots| <= 0x1_0000
    ensures Poll(v, ballots).0.Open?
    decreases |ballots|
  {
    if ballots != [] {
      TooFewUsers(Count(v, ballots[0]).v, ballots[1..]);
    }
  }

  ghost predicate AlwaysDecided(uin: nat, n: UInt16) {
    forall ballots: seq<bool> :: |ballots| >= Longest(n) ==> Poll(Started(uin, n), ballots).0.Decided?
  }

  lemma AlwaysDecidedIff(uin: nat, n: UInt16)
    ensures AlwaysDecided(uin, n) <==> n >= 2
  {
    if n >= 2 {
      forall ballots: seq<bool> | |ballots| >= Longest(n) ensures Poll(Started(uin, n), ballots).0.Decided? {
        DecidedVote(uin, n, ballots);
      }
    } else {
      TooFewUsers(Started(uin, n), [true]);
      assert |[true]| >= Longest(n);
    }
  }

  lemma {:induction false} YeasOfConcat(a: seq<bool>, b: seq<bool>)
    ensures Yeas(a + b) == Yeas(a) + Yeas(b)
    decreases |a|
  {
    if a == [] {
      assert a + b == b;
    } else {
      DropInLeft(a, b, 1);
      YeasOfConcat(a[1..], b);
    }
  }

  /** All users but the one to be kicked may answer, n - 1 of them, but only the first
      n - 2 answers count, whether the vote was decided before the last of them or by it. */
  lemma OnlyFirstAnswersCount(uin: nat, n: UInt16, ballots: seq<bool>)
    requires n >= 3 && |ballots| == n - 1
    ensures var r := Poll(Started(uin, n), ballots).0;
      r.Decided? && (r.passed <==> 2 * (1 + Yeas(ballots[..n - 2])) > n)
  {
    DecidedVote(uin, n, ballots);
    var used := Poll(Started(uin, n), ballots).1;
    YeasOfConcat(ballots[..used], ballots[used..n - 2]);
    assert ballots[..used] + ballots[used..n - 2] == ballots[..n - 2];
  }

  /** The verdict is that of the majority of all n + 1 participants, the asker and the
      user to be kicked among them, unless the last answer matters: the others are
      tied and it says yes, which fails, or yes leads by one and it says no, which
      makes a tie that passes. */
  lemma LastVoterIsNotHeard(uin: nat, n: UInt16, ballots: seq<bool>)
    requires n >= 3 && |ballots| == n - 1
    ensures var r := Poll(Started(uin, n), ballots).0;
      var heard, last := 1 + Yeas(ballots[..n - 2]), ballots[n - 2];
      && r.Decided?
      && ((r.passed <==> 2 * (1 + Yeas(ballots)) > n + 1) <==>
          !(2 * heard == n && last) && !(2 * heard == n + 1 && !last))
  {
    OnlyFirstAnswersCount(uin, n, ballots);
    YeasOfConcat(ballots[..n - 2], [ballots[n - 2]]);
    assert ballots[..n - 2] + [ballots[n - 2]] == ballots;
    assert [ballots[n - 2]][1..] == [];
  }

  /** Of four users: three of five are in favour, and the vote fails. */
  lemma ThreeOfFiveCanFail(uin: nat)
    ensures Poll(Started(uin, 4), [true, false, true]).0 == Decided(Vote(uin, 4, 2, 2), false)
    ensures 1 + Yeas([true, false, true]) == 3
  {
    var b := [true, false, true];
    assert b[1..] == [false, true] && b[1..][1..] == [true] && b[1..][1..][1..] == [];
    assert Count(Started(uin, 4), true) == Open(Vote(uin, 4, 2, 1));
    assert Count(Vote(uin, 4, 2, 1), false) == Decided(Vote(uin, 4, 2, 2), false);
    assert Poll(Vote(uin, 4, 2, 1), b[1..]).0 == Decided(Vote(uin, 4, 2, 2), false);
  }

  // ----- the list of votes -----

  function FirstOn(votes: seq<Vote>, uin: nat): (n: nat)
    ensures n <= |votes| && (n < |votes| ==> votes[n].uin == uin)
    ensures forall i :: 0 <= i < n ==> votes[i].uin != uin
  {
    if votes == [] || votes[0].uin == uin then 0 else 1 + FirstOn(votes[1..], uin)
  }

  // The vote an answer decides, or none.
  datatype Decision = Nothing | Finish(v: Vote, passed: bool)

  function Answered(votes: seq<Vote>, uin: nat, yes: bool): (r: (seq<Vote>, Decision)) {
    var n := FirstOn(votes, uin);
    if n == |votes| then (votes, Nothing)
    else match Count(votes[n], yes)
      case Open(w) => (votes[n := w], Nothing)
      case Decided(w, passed) => (Without(votes, n), Finish(w, passed))
  }

  class VoteInfo {
    var votes: seq<Vote>

    constructor ()
      ensures votes == []
    {
      votes := [];
    }

    method SendKick(uin: nat, connectedUsers: UInt16)
      modifies this
      ensures votes == old(votes) + [Started(uin, connectedUsers)]
    {
      votes := votes + [Vote(uin, connectedUsers, 1, 1)];
    }

    method CountAnswer(i: nat, yes: bool) returns (d: Decision)
      requires i < |votes|
      modifies this
      ensures match Count(old(votes)[i], yes)
        case Open(w) => d == Nothing && votes == old(votes)[i := w]
        case Decided(w, passed) => d == Finish(w, passed) && votes == Without(old(votes), i)
    {
      var v := votes[i];
      if yes {
        v := v.(yes := (v.yes + 1) % 0x1_0000);
      } else {
        v := v.(no := (v.no + 1) % 0x1_0000);
      }
      var majority := v.numUsers / 2;
      majority := majority + 1;
      if (if yes then v.yes else v.no) == majority {
        votes := votes[..i] + votes[i + 1..];
        return Finish(v, yes);
      }
      if v.yes + v.no == v.numUsers {
        votes := votes[..i] + votes[i + 1..];
        return Finish(v, false);
      }
      votes := votes[i := v];
      d := Nothing;
    }

    /** An answer for an unknown user changes nothing; a vote that is decided leaves the list. */
    method Answer(uin: nat, yes: bool) returns (d: Decision)
      modifies this
      ensures (votes, d) == Answered(old(votes), uin, yes)
    {
      hide Count;
      var i := 0;
      while i < |votes| && votes[i].uin != uin
        invariant 0 <= i <= |votes| && forall j :: 0 <= j < i ==> votes[j].uin != uin
      {
        i := i + 1;
      }
      if i == |votes| {
        return Nothing;
      }
      d := CountAnswer(i, yes);
    }
  }

  // ----- runs: any number of votes, also several on one user, and answers in any order -----

  datatype Event = Kick(uin: nat, users: UInt16) | Reply(uin: nat, yes: bool)

  /** live[i] is what was answered to votes[i]; closed: what was answered to the votes decided. */
  datatype Book = Book(votes: seq<Vote>, live: seq<seq<bool>>, closed: seq<(Vote, seq<bool>, bool)>, kicks: nat)

  function Step(b: Book, e: Event): (c: Book)
    requires |b.votes| == |b.live|
    ensures |c.votes| == |c.live|
  {
    match e
    case Kick(uin, users) => b.(votes := b.votes + [Started(uin, users)], live := b.live + [[]], kicks := b.kicks + 1)
    case Reply(uin, yes) =>
      var n := FirstOn(b.votes, uin);
      var (votes, d) := Answered(b.votes, uin, yes);
      if n == |b.votes| then b
      else if d.Nothing? then b.(votes := votes, live := b.live[n := b.live[n] + [yes]])
      else b.(votes := votes, live := Without(b.live, n),
              closed := b.closed + [(d.v, b.live[n] + [yes], d.passed)])
  }

  predicate Earned(v: Vote, ballots: seq<bool>) {
    Poll(Started(v.uin, v.numUsers), ballots).0 == Open(v)
  }

  predicate Ended(v: Vote, ballots: seq<bool>, passed: bool) {
    Poll(Started(v.uin, v.numUsers), ballots) == (Decided(v, passed), |ballots|)
  }

  /** Each vote in the list is what its answers make of it; each vote that left it was
      decided by its last answer, and none is lost or decided twice. */
  predicate Consistent(b: Book) {
    && |b.votes| == |b.live| && |b.votes| + |b.closed| == b.kicks
    && (forall i :: 0 <= i < |b.votes| ==> Earned(b.votes[i], b.live[i]))
    && (forall i :: 0 <= i < |b.closed| ==> Ended(b.closed[i].0, b.closed[i].1, b.closed[i].2))
  }

  lemma PollOneMore(v: Vote, ballots: seq<bool>, yes: bool)
    requires Poll(v, ballots).0.Open?
    ensures Poll(v, ballots + [yes]) == (Count(Poll(v, ballots).0.v, yes), |ballots| + 1)
  {
    DecidedOnce(v, ballots, [yes]);
    assert [yes][1..] == [];
  }

  // One answer more keeps what is said of a vote, or of its end.
  lemma AnswerIsEarned(v: Vote, ballots: seq<bool>, yes: bool)
    requires Earned(v, ballots)
    ensures match Count(v, yes)
      case Open(w) => Earned(w, ballots + [yes])
      case Decided(w, passed) => Ended(w, ballots + [yes], passed)
  {
    hide Poll, Count;
    PollOneMore(Started(v.uin, v.numUsers), ballots, yes);
    SameVote(v, yes);
  }

  lemma OthersAreEarned(votes: seq<Vote>, live: seq<seq<bool>>, n: nat)
    requires n < |votes| == |live| && forall i :: 0 <= i < |votes| ==> Earned(votes[i], live[i])
    ensures var vs, bs := Without(votes, n), Without(live, n);
      |vs| == |bs| == |votes| - 1 && forall i :: 0 <= i < |vs| ==> Earned(vs[i], bs[i])
  {
    hide Earned;
    var vs, bs := Without(votes, n), Without(live, n);
    assert forall i :: 0 <= i < |vs| ==> vs[i] == votes[if i < n then i else i + 1] && bs[i] == live[if i < n then i else i + 1];
  }

  lemma ReplyKeepsConsistent(b: Book, uin: nat, yes: bool)
    requires Consistent(b)
    ensures Consistent(Step(b, Reply(uin, yes)))
  {
    hide Earned, Ended, Count, FirstOn;
    var n := FirstOn(b.votes, uin);
    if n < |b.votes| {
      AnswerIsEarned(b.votes[n], b.live[n], yes);
      OthersAreEarned(b.votes, b.live, n);
    }
  }

  lemma SameVote(v: Vote, yes: bool)
    ensures Count(v, yes).v.uin == v.uin && Count(v, yes).v.numUsers == v.numUsers
  {}

  function After(events: seq<Event>): (b: Book)
    ensures |b.votes| == |b.live|
  {
    if events == [] then Book([], [], [], 0) else Step(After(events[..|events| - 1]), events[|events| - 1])
  }

  lemma {:induction false} RunIsConsistent(events: seq<Event>)
    ensures Consistent(After(events))
  {
    if events != [] {
      var b := After(events[..|events| - 1]);
      RunIsConsistent(events[..|events| - 1]);
      match events[|events| - 1]
      case Kick(uin, users) =>
      case Reply(uin, yes) => ReplyKeepsConsistent(b, uin, yes);
    }
  }

  /** In every run, every vote among at least two users: undecided, its counts are below
      the majority and add up to two and its answers; decided, it took at most
      max(1, n - 2) answers, and passed exactly with more than half the users in favour. */
  lemma VotesInRuns(events: seq<Event>)
    ensures var b := After(events);
      && |b.votes| + |b.closed| == b.kicks && |b.votes| == |b.live|
      && (forall i :: 0 <= i < |b.votes| && b.votes[i].numUsers >= 2 ==>
            var v := b.votes[i]; Live(v) && v.yes + v.no == 2 + |b.live[i]|)
      && (forall i :: 0 <= i < |b.closed| && b.closed[i].0.numUsers >= 2 ==>
            var (v, ballots, passed) := b.closed[i];
            1 <= |ballots| <= Longest(v.numUsers) && (passed <==> 2 * v.yes > v.numUsers)
            && v.yes == 1 + Yeas(ballots) && v.yes + v.no == 2 + |ballots|)
  {
    RunIsConsistent(events);
    var b := After(events);
    hide Poll, After;
    forall i | 0 <= i < |b.votes| && b.votes[i].numUsers >= 2
      ensures Live(b.votes[i]) && b.votes[i].yes + b.votes[i].no == 2 + |b.live[i]|
    {
      PollOfLive(Started(b.votes[i].uin, b.votes[i].numUsers), b.live[i]);
    }
    forall i | 0 <= i < |b.closed| && b.closed[i].0.numUsers >= 2
      ensures var (v, ballots, passed) := b.closed[i];
        1 <= |ballots| <= Longest(v.numUsers) && (passed <==> 2 * v.yes > v.numUsers)
        && v.yes == 1 + Yeas(ballots) && v.yes + v.no == 2 + |ballots|
    {
      var (v, ballots, passed) := b.closed[i];
      PollOfLive(Started(v.uin, v.numUsers), ballots);
      assert ballots[..|ballots|] == ballots;
    }
  }
}
