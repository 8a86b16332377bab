/**
 What a kick vote does to the chat (icq/src/chat.cpp:1410-1470, 1697-1755, 2035-2054,
 2254-2319): the answer that decides the vote ends it, and its verdict closes the
 user it was about, or nobody.
 */
module ChatKicks {
  import opened Sequences
  import opened ChatRoom
  import KickVote

  // The n-th user listed is the first one with that number.
  predicate FirstWith(r: Room, number: nat, n: nat) {
    && n < |r.users| && r.users[n] in r.uin && r.uin[r.users[n]] == number
    && forall j :: 0 <= j < n && r.users[j] in r.uin ==> r.uin[r.users[j]] != number
  }

  ghost predicate SomeoneHas(r: Room, number: nat) {
    exists n: nat :: FirstWith(r, number, n)
  }

  /** In s the n-th user of r has been moved to the end of the closed list, is
      disconnected and was announced once; nothing else differs. */
  predicate OnlyThisOneLeft(r: Room, s: Room, n: nat) {
    && n < |r.users|
    && s.users == r.users[..n] + r.users[n + 1..]
    && s.closed == r.closed + [r.users[n]]
    && s.events == r.events + [Disconnection(r.users[n])]
    && s.state.Keys == r.state.Keys + {r.users[n]}
    && (forall u | u in s.state :: s.state[u] == if u == r.users[n] then Disconnected else r.state[u])
    && s.socket == r.socket && s.uin == r.uin && s.log == r.log
  }

  lemma SomeoneIff(r: Room, number: nat)
    ensures SomeoneHas(r, number) <==> Numbered(r, number, 0) < |r.users|
    ensures forall n: nat :: FirstWith(r, number, n) ==> n == Numbered(r, number, 0)
  {
    var m := Numbered(r, number, 0);
    if m < |r.users| {
      assert FirstWith(r, number, m);
    }
  }

  lemma FirstIsFound(r: Room, number: nat, n: nat)
    requires FirstWith(r, number, n)
    ensures IndexOf(r.users, r.users[n]) == n
  {}

  /** A passed vote moves the first user of that number, and only that one. Without such
      a user, or when the vote failed, nothing changes at all. */
  lemma VerdictIsCarriedOut(r: Room, number: nat, passed: bool, n: nat)
    ensures FirstWith(r, number, n) && passed ==> OnlyThisOneLeft(r, Kicked(r, number, passed), n)
    ensures !passed || !SomeoneHas(r, number) ==> Kicked(r, number, passed) == r
  {
    SomeoneIff(r, number);
    if FirstWith(r, number, n) {
      FirstIsFound(r, number, n);
    }
  }

  // ----- votes and rooms together -----

  /** The two packets CHAT_KICKxYES and CHAT_KICKxNO: an answer that decides a vote has
      its verdict carried out. */
  function Replied(r: Room, votes: seq<KickVote.Vote>, uin: nat, yes: bool): (s: Room) {
    match KickVote.Answered(votes, uin, yes).1
    case Nothing => r
    case Finish(v, passed) => Kicked(r, v.uin, passed)
  }

  method ReplyToVote(room: ChatManager, votes: KickVote.VoteInfo, uin: nat, yes: bool)
    requires Known(room.View())
    modifies room, votes
    ensures room.View() == Replied(old(room.View()), old(votes.votes), uin, yes)
    ensures votes.votes == KickVote.Answered(old(votes.votes), uin, yes).0
  {
    hide Known;
    var d := votes.Answer(uin, yes);
    if d.Finish? {
      room.FinishKickVote(d.v.uin, d.passed);
    }
  }

  // In favour so far, the asker among them, with one answer more.
  function InFavour(ballots: seq<bool>, yes: bool): nat {
    1 + KickVote.Yeas(ballots + [yes])
  }

  lemma AnswerPassesIff(v: KickVote.Vote, ballots: seq<bool>, yes: bool)
    requires KickVote.Earned(v, ballots) && v.numUsers >= 2
    ensures var d := KickVote.Count(v, yes);
      && d.v.uin == v.uin
      && (2 * InFavour(ballots, yes) > v.numUsers <==> d.Decided? && d.passed)
  {
    KickVote.PollOfLive(KickVote.Started(v.uin, v.numUsers), ballots);
    KickVote.YeasOfConcat(ballots, [yes]);
    assert ballots[..|ballots|] == ballots;
    assert [yes][1..] == [];
    hide KickVote.Poll, KickVote.Yeas;
    KickVote.CountKeepsLive(v, yes);
  }

  /** In every run of votes and answers, and whatever the room is by then: an answer on a
      user closes somebody exactly when the first vote on that user thereby has more than
      half of its users in favour and a user of that number is listed; then it
      closes the first of these, and only that one. */
  lemma AnswerClosesIff(events: seq<KickVote.Event>, r: Room, uin: nat, yes: bool, n: nat)
    requires var b := KickVote.After(events);
      n < |b.votes| && b.votes[n].uin == uin && b.votes[n].numUsers >= 2 && forall j :: 0 <= j < n ==> b.votes[j].uin != uin
    ensures var b := KickVote.After(events);
      var s := Replied(r, b.votes, uin, yes);
      var passes := 2 * InFavour(b.live[n], yes) > b.votes[n].numUsers;
      && (s != r <==> passes && SomeoneHas(r, uin))
      && (forall k: nat :: s != r && FirstWith(r, uin, k) ==> OnlyThisOneLeft(r, s, k))
  {
    var b := KickVote.After(events);
    KickVote.RunIsConsistent(events);
    AnswerPassesIff(b.votes[n], b.live[n], yes);
    hide KickVote.After, KickVote.Count, KickVote.Earned, KickVote.Ended, InFavour, Kicked, FirstWith;
    assert KickVote.FirstOn(b.votes, uin) == n;
    var s := Replied(r, b.votes, uin, yes);
    var d := KickVote.Count(b.votes[n], yes);
    assert d.Open? ==> s == r;
    assert d.Decided? ==> s == Kicked(r, uin, d.passed);
    VerdictIsCarriedOut(r, uin, d.Decided? && d.passed, 0);
    forall k: nat | FirstWith(r, uin, k)
      ensures d.Decided? && d.passed ==> OnlyThisOneLeft(r, s, k) && s != r
    {
      VerdictIsCarriedOut(r, uin, d.Decided? && d.passed, k);
      assert |r.closed + [r.users[k]]| == |r.closed| + 1 by {
        InRoom(r, uin, k);
      }
    }
  }

  lemma InRoom(r: Room, uin: nat, k: nat)
    requires FirstWith(r, uin, k)
    ensures k < |r.users|
  {}

  /** An answer on a user nobody has asked to kick changes nothing. */
  lemma UnaskedAnswerIsIgnored(r: Room, votes: seq<KickVote.Vote>, uin: nat, yes: bool)
    requires forall v | v in votes :: v.uin != uin
    ensures Replied(r, votes, uin, yes) == r && KickVote.Answered(votes, uin, yes).0 == votes
  {}
}
