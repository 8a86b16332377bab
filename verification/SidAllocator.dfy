/**
 generateSid (icq/src/icq.cpp:1961-2031): a server-side id that no contact, no
 group and not the owner's privacy settings use, found by walking round the ids
 1 to 0x7FFF from a random start.
 */
module SidAllocator {
  import opened Bytes

  const LAST := 0x7FFF

  datatype Contact = Contact(sid: UInt16, invisible: UInt16, visible: UInt16)

  predicate UsedByContact(id: int, users: seq<Contact>) {
    exists i :: 0 <= i < |users| && (users[i].sid == id || users[i].invisible == id || users[i].visible == id)
  }

  predicate UsedByGroup(id: int, groups: seq<UInt16>) {
    exists i :: 0 <= i < |groups| && groups[i] == id
  }

  predicate Used(id: int, users: seq<Contact>, groups: seq<UInt16>) {
    UsedByContact(id, users) || UsedByGroup(id, groups)
  }

  predicate Free(id: int, pdinfo: UInt16, users: seq<Contact>, groups: seq<UInt16>) {
    1 <= id <= LAST && id != pdinfo && !Used(id, users, groups)
  }

  // The id a round of the loop tries: 0 and the owner's PDINFO are stepped over.
  function Candidate(sid: nat, pdinfo: UInt16): (id: nat) {
    var id := if sid == 0 then 1 else sid;
    if id == pdinfo then id + 1 else id
  }

  function After(id: nat): (next: nat) {
    if id == LAST then 1 else id + 1
  }

  // How far the walk has to go from one id to another.
  function Distance(start: int, id: int): (d: int)
    requires 1 <= start <= LAST && 1 <= id <= LAST
    ensures 0 <= d < LAST
  {
    if id >= start then id - start else id - start + LAST
  }

  // The first id of the walk.
  function Start(seed: nat): (id: nat)
    requires seed <= LAST
    ensures 1 <= id <= LAST
  {
    if seed == 0 then 1 else seed
  }

  // An owner's PDINFO of 0x7FFF makes the walk leave the range instead of closing the circle.
  predicate FreeAhead(start: nat, users: seq<Contact>, groups: seq<UInt16>) {
    exists id :: start <= id < LAST && !Used(id, users, groups)
  }

  method ContactUses(id: nat, users: seq<Contact>) returns (found: bool)
    ensures found == UsedByContact(id, users)
  {
    var i := 0;
    while i < |users|
      invariant 0 <= i <= |users| && !UsedByContact(id, users[..i])
    {
      if users[i].sid == id || users[i].invisible == id || users[i].visible == id {
        return true;
      }
      i := i + 1;
    }
    assert users[..i] == users;
    return false;
  }

  method GroupUses(id: nat, groups: seq<UInt16>) returns (found: bool)
    ensures found == UsedByGroup(id, groups)
  {
    var i := 0;
    while i < |groups|
      invariant 0 <= i <= |groups| && !UsedByGroup(id, groups[..i])
    {
      if groups[i] == id {
        return true;
      }
      i := i + 1;
    }
    assert groups[..i] == groups;
    return false;
  }

  // Groups are looked at only when no contact uses the id.
  method SomeoneUses(id: nat, users: seq<Contact>, groups: seq<UInt16>) returns (found: bool)
    ensures found == Used(id, users, groups)
  {
    found := ContactUses(id, users);
    if !found {
      found := GroupUses(id, groups);
    }
  }

  // The walk has passed no free id, or, climbing, no unused one.
  ghost predicate NonePassed(pdinfo: UInt16, users: seq<Contact>, groups: seq<UInt16>, seed: nat, sid: nat)
    requires seed <= LAST
  {
    if pdinfo == LAST then
      && (sid == seed || sid > Start(seed)) && sid <= 0x1_0000
      && forall id | Start(seed) <= id < sid && id != LAST :: Used(id, users, groups)
    else
      && sid <= LAST
      && forall id | Free(id, pdinfo, users, groups) :: Distance(Start(seed), Start(sid)) <= Distance(Start(seed), id)
  }

  // How far the walk still is from goal; when it only climbs, from the first id nothing can use.
  function Remaining(pdinfo: UInt16, seed: nat, sid: nat, goal: int): (d: int)
    requires seed <= LAST && (pdinfo != LAST ==> sid <= LAST && 1 <= goal <= LAST)
  {
    if pdinfo == LAST then 0x1_0000 - sid else Distance(Start(seed), goal) - Distance(Start(seed), Start(sid))
  }

  /** seed: the random start, already reduced to 15 bits. Without the PDINFO of
      0x7FFF and with a free id, the result is the free id the walk reaches first.
      With that PDINFO it is the first free id up to 0x7FFE, or an id out of range. */
  method GenerateSid(pdinfo: UInt16, users: seq<Contact>, groups: seq<UInt16>, seed: nat) returns (r: UInt16)
    requires seed <= LAST
    requires pdinfo == LAST || exists id :: Free(id, pdinfo, users, groups)
    ensures Free(r, pdinfo, users, groups) <==> pdinfo != LAST || FreeAhead(Start(seed), users, groups)
    ensures Free(r, pdinfo, users, groups) ==>
      forall id | Free(id, pdinfo, users, groups) && (pdinfo == LAST ==> Start(seed) <= id) ::
        Distance(Start(seed), r) <= Distance(Start(seed), id)
    ensures pdinfo != LAST ==>
      && 1 <= r <= LAST && r != pdinfo
      && (forall i :: 0 <= i < |users| ==> r != users[i].sid && r != users[i].invisible && r != users[i].visible)
      && (forall i :: 0 <= i < |groups| ==> r != groups[i])
    ensures !Free(r, pdinfo, users, groups) ==> r == 0 || r > LAST
  {
    hide Used;
    ghost var goal: int := 1;
    if pdinfo != LAST {
      goal :| Free(goal, pdinfo, users, groups);
    }
    var sid := seed;
    while true
      invariant NonePassed(pdinfo, users, groups, seed, sid)
      decreases Remaining(pdinfo, seed, sid, goal)
    {
      ghost var before := sid;
      sid := Candidate(sid, pdinfo);
      var used := SomeoneUses(sid, users, groups);
      if !used {
        UnusedCandidate(pdinfo, users, groups, seed, before);
        UnusedByAll(sid, users, groups);
        return if sid == 0x1_0000 then 0 else sid;
      }
      if pdinfo == LAST {
        ClimbOn(users, groups, seed, before);
      } else {
        WalkOn(pdinfo, users, groups, Start(seed), Start(before), sid);
      }
      sid := After(sid);
    }
  }

  lemma UnusedByAll(id: int, users: seq<Contact>, groups: seq<UInt16>)
    requires !Used(id, users, groups)
    ensures forall i :: 0 <= i < |users| ==> id != users[i].sid && id != users[i].invisible && id != users[i].visible
    ensures forall i :: 0 <= i < |groups| ==> id != groups[i]
  {}

  lemma UnusedCandidate(pdinfo: UInt16, users: seq<Contact>, groups: seq<UInt16>, seed: nat, sid: nat)
    requires seed <= LAST && NonePassed(pdinfo, users, groups, seed, sid)
    requires !Used(Candidate(sid, pdinfo), users, groups)
    ensures var id := Candidate(sid, pdinfo);
      && id <= 0x1_0000
      && (pdinfo != LAST ==> Free(id, pdinfo, users, groups))
      && (pdinfo == LAST ==>
            if id < LAST then Free(id, pdinfo, users, groups) && FreeAhead(Start(seed), users, groups)
            else !FreeAhead(Start(seed), users, groups) && id > LAST)
  {
    hide Used;
    var id := Candidate(sid, pdinfo);
    if pdinfo == LAST && id < LAST {
      assert Start(seed) <= id < LAST && !Used(id, users, groups);
    }
  }

  lemma ClimbOn(users: seq<Contact>, groups: seq<UInt16>, seed: nat, sid: nat)
    requires seed <= LAST && NonePassed(LAST, users, groups, seed, sid)
    requires Used(Candidate(sid, LAST), users, groups)
    ensures sid < After(Candidate(sid, LAST)) && NonePassed(LAST, users, groups, seed, After(Candidate(sid, LAST)))
  {}

  // Stepping past a used candidate passes no free id.
  lemma WalkOn(pdinfo: UInt16, users: seq<Contact>, groups: seq<UInt16>, start: nat, before: nat, sid: nat)
    requires 1 <= start <= LAST && 1 <= before <= LAST && pdinfo != LAST
    requires sid == Candidate(before, pdinfo) && Used(sid, users, groups)
    requires exists id :: Free(id, pdinfo, users, groups)
    requires forall id | Free(id, pdinfo, users, groups) :: Distance(start, before) <= Distance(start, id)
    ensures 1 <= sid <= LAST && Distance(start, before) < Distance(start, After(sid))
    ensures forall id | Free(id, pdinfo, users, groups) :: Distance(start, After(sid)) <= Distance(start, id)
  {
    hide Used;
    var goal :| Free(goal, pdinfo, users, groups);
    assert !Free(before, pdinfo, users, groups) && !Free(sid, pdinfo, users, groups);
  }

  /** With every id in use and another PDINFO, the loop goes round for ever: every
      candidate is in range and used, and so is the next. */
  lemma WithoutFreeIdItNeverEnds(pdinfo: UInt16, users: seq<Contact>, groups: seq<UInt16>, sid: nat)
    requires sid <= LAST && pdinfo != LAST
    requires forall id :: !Free(id, pdinfo, users, groups)
    ensures var id := Candidate(sid, pdinfo);
      1 <= id <= LAST && Used(id, users, groups) && 1 <= After(id) <= LAST
  {
    assert !Free(Candidate(sid, pdinfo), pdinfo, users, groups);
  }
}
