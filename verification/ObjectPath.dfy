/**
 Object paths of owners and contacts (dbus/src/plugin.cpp:144-205) over user ids
 (licq/include/licq/userid.h:61-100, licq/src/contactlist/user.cpp:1267-1284) and
 protocol names (user.cpp:1632-1655, userid.h:32-41).
 */
module ObjectPath {
  import opened Sequences
  import opened ObjectPathPart

  const ICQ: nat := 0x4943515F
  const MSN: nat := 0x4D534E5F
  const JABBER: nat := 0x584D5050

  // ----- account ids -----

  function LowerOctet(c: Octet): (r: Octet) {
    if 'A' <= c <= 'Z' then (c as int + 32) as char else c
  }

  function Lower(s: Str): (r: Str)
    ensures |r| == |s| && forall k :: 0 <= k < |s| ==> r[k] == LowerOctet(s[k])
  {
    if s == [] then [] else [LowerOctet(s[0])] + Lower(s[1..])
  }

  function EraseSpaces(s: Str): (r: Str)
    ensures ' ' !in r
  {
    if s == [] then [] else (if s[0] == ' ' then [] else [s[0]]) + EraseSpaces(s[1..])
  }

  predicate IsDigit(c: Octet) {
    '0' <= c <= '9'
  }

  function NormalizeId(account: Str, protocolId: nat): (r: Str) {
    if protocolId == ICQ && account != [] && !IsDigit(account[0]) then Lower(EraseSpaces(account)) else account
  }

  lemma {:induction false} NothingToErase(s: Str)
    requires ' ' !in s
    ensures EraseSpaces(s) == s
  {
    if s != [] {
      NothingToErase(s[1..]);
    }
  }

  lemma NormalizeIdIsIdempotent(account: Str, protocolId: nat)
    ensures NormalizeId(NormalizeId(account, protocolId), protocolId) == NormalizeId(account, protocolId)
  {
    var e := EraseSpaces(account);
    var n := Lower(e);
    NothingToErase(n);
    assert forall k :: 0 <= k < |n| ==> Lower(n)[k] == n[k];
    assert Lower(n) == n;
  }

  // n is the account without its blanks, and with small letters for capitals.
  predicate Spells(n: Str, account: Str) {
    if account == [] then n == []
    else if account[0] == ' ' then Spells(n, account[1..])
    else
      && n != [] && Spells(n[1..], account[1..])
      && if 'A' <= account[0] <= 'Z' then n[0] as int - 'a' as int == account[0] as int - 'A' as int
         else n[0] == account[0]
  }

  lemma {:induction false} LoweredIff(n: Str, account: Str)
    ensures n == Lower(EraseSpaces(account)) <==> Spells(n, account)
    decreases |account|
  {
    if account != [] {
      var e := EraseSpaces(account[1..]);
      if account[0] == ' ' {
        LoweredIff(n, account[1..]);
        assert [] + e == e;
      } else {
        LoweredFront(n, account[0], e);
        if n != [] {
          LoweredIff(n[1..], account[1..]);
        }
      }
    }
  }

  lemma LoweredFront(n: Str, c: Octet, e: Str)
    ensures n == Lower([c] + e) <==> n != [] && n[0] == LowerOctet(c) && n[1..] == Lower(e)
  {
    assert ([c] + e)[1..] == e;
    assert Lower([c] + e) == [LowerOctet(c)] + Lower(e);
    assert ([LowerOctet(c)] + Lower(e))[1..] == Lower(e);
    assert n != [] ==> n == [n[0]] + n[1..];
  }

  /** Of an ICQ account that does not begin with a digit, blanks and case do not matter;
      any other account is its own normal form. */
  lemma NormalizeIdIff(n: Str, account: Str, protocolId: nat)
    ensures protocolId == ICQ && account != [] && !('0' <= account[0] <= '9') ==>
      (n == NormalizeId(account, protocolId) <==> Spells(n, account))
    ensures protocolId != ICQ || account == [] || '0' <= account[0] <= '9' ==> NormalizeId(account, protocolId) == account
  {
    LoweredIff(n, account);
  }

  // ----- user ids -----

  datatype UserId = UserId(protocolId: nat, owner: Str, account: Str) {
    predicate IsValid() {
      protocolId != 0
    }

    predicate IsOwner() {
      account == owner
    }

    // Ids are only built by the constructors below.
    predicate Normal() {
      NormalizeId(owner, protocolId) == owner && NormalizeId(account, protocolId) == account
    }
  }

  const INVALID := UserId(0, [], [])

  function OwnerId(protocolId: nat, account: Str): (u: UserId)
    ensures u.Normal() && u.IsOwner()
  {
    NormalizeIdIsIdempotent(account, protocolId);
    var a := NormalizeId(account, protocolId);
    UserId(protocolId, a, a)
  }

  function ContactId(owner: UserId, account: Str): (u: UserId)
    requires owner.Normal()
    ensures u.Normal()
  {
    NormalizeIdIsIdempotent(account, owner.protocolId);
    UserId(owner.protocolId, owner.owner, NormalizeId(account, owner.protocolId))
  }

  // ----- protocol names -----

  datatype ProtocolPlugin = ProtocolPlugin(name: Str, id: nat)

  function UpToNul(s: Str): (r: Str)
    ensures |r| <= |s|
  {
    if s == [] || s[0] == '\0' then [] else [s[0]] + UpToNul(s[1..])
  }

  function TagOf(id: nat): (r: Str) {
    UpToNul([(id / 0x100_0000 % 0x100) as char, (id / 0x1_0000 % 0x100) as char,
             (id / 0x100 % 0x100) as char, (id % 0x100) as char])
  }

  /** The tag of a protocol is the four octets of its id, up to the first NUL. */
  lemma TagIsItsOctets(a: Octet, b: Octet, c: Octet, d: Octet)
    ensures var id := ((a as nat * 0x100 + b as nat) * 0x100 + c as nat) * 0x100 + d as nat;
      TagOf(id) ==
        if a as int == 0 then [] else if b as int == 0 then [a] else if c as int == 0 then [a, b]
        else if d as int == 0 then [a, b, c] else [a, b, c, d]
  {
    var s := [a, b, c, d];
    assert s[1..] == [b, c, d] && s[1..][1..] == [c, d] && s[1..][1..][1..] == [d] && s[1..][1..][1..][1..] == [];
    assert UpToNul([d]) == if d as int == 0 then [] else [d];
    assert UpToNul([c, d]) == if c as int == 0 then [] else [c] + UpToNul([d]);
    assert UpToNul([b, c, d]) == if b as int == 0 then [] else [b] + UpToNul([c, d]);
    assert UpToNul(s) == if a as int == 0 then [] else [a] + UpToNul([b, c, d]);
    OctetsOf(a as nat, b as nat, c as nat, d as nat);
  }

  lemma OctetsOf(a: nat, b: nat, c: nat, d: nat)
    requires a < 0x100 && b < 0x100 && c < 0x100 && d < 0x100
    ensures var id := ((a * 0x100 + b) * 0x100 + c) * 0x100 + d;
      id / 0x100_0000 % 0x100 == a && id / 0x1_0000 % 0x100 == b && id / 0x100 % 0x100 == c && id % 0x100 == d
  {
    var id := ((a * 0x100 + b) * 0x100 + c) * 0x100 + d;
    assert id / 0x100 == (a * 0x100 + b) * 0x100 + c;
    assert id / 0x1_0000 == a * 0x100 + b;
    assert id / 0x100_0000 == a;
  }

  function NameOf(id: nat): (r: Str) {
    if id == ICQ then "ICQ" else if id == MSN then "MSN" else if id == JABBER then "Jabber" else TagOf(id)
  }

  predicate SameIgnoringCase(a: Str, b: Str) {
    Lower(a) == Lower(b)
  }

  function PluginOf(plugins: seq<ProtocolPlugin>, s: Str): (id: nat) {
    if plugins == [] then 0
    else if SameIgnoringCase(s, plugins[0].name) || s == TagOf(plugins[0].id) then plugins[0].id
    else PluginOf(plugins[1..], s)
  }

  function IdOf(plugins: seq<ProtocolPlugin>, s: Str): (id: nat) {
    if SameIgnoringCase(s, "ICQ") || s == "ICQ_" || s == "Licq" then ICQ
    else if SameIgnoringCase(s, "MSN") || s == "MSN_" then MSN
    else if SameIgnoringCase(s, "Jabber") || s == "XMPP" then JABBER
    else PluginOf(plugins, s)
  }

  /** The name of the protocol leads back to it and is one part of a path. */
  predicate Resolves(plugins: seq<ProtocolPlugin>, id: nat) {
    && id != 0 && IdOf(plugins, NameOf(id)) == id
    && NameOf(id) != [] && '/' !in NameOf(id)[1..]
  }

  lemma KnownProtocolsResolve(plugins: seq<ProtocolPlugin>, id: nat)
    requires id == ICQ || id == MSN || id == JABBER
    ensures Resolves(plugins, id)
  {
    var name := NameOf(id);
    assert id == MSN ==> Lower(name)[0] == 'm' && Lower("ICQ")[0] == 'i';
    assert id == JABBER ==> Lower(name)[0] == 'j' && Lower("ICQ")[0] == 'i' && Lower("MSN")[0] == 'm';
  }

  // ----- printing and parsing -----

  const PREFIX: Str := "/org/licq/ContactList/"

  function Head(id: nat): (r: Str)
    ensures |r| == 22 + |NameOf(id)|
  {
    PREFIX + NameOf(id)
  }

  function OwnerPart(u: UserId): (r: Str) {
    if u.IsOwner() then [] else "/" + Encoded(NormalizeId(u.owner, u.protocolId))
  }

  function PathOf(u: UserId): (r: Str) {
    Head(u.protocolId) + OwnerPart(u) + "/" + Encoded(u.account)
  }

  method UserIdToObjectPath(u: UserId) returns (s: Str)
    ensures s == PathOf(u)
  {
    s := PREFIX;
    s := s + NameOf(u.protocolId);
    ghost var head := s;
    if !u.IsOwner() {
      var e := Encode(OwnerId(u.protocolId, u.owner).account);
      s := s + "/";
      s := s + e;
      Assoc(head, "/", e);
    }
    assert s == head + OwnerPart(u);
    var e := Encode(u.account);
    s := s + "/";
    s := s + e;
  }

  // NoAnswer: decoding a part of two octets, or of a single underscore.
  datatype Outcome = Returns(u: UserId) | NoAnswer

  // Past the protocol, whose slash is at p1.
  function AccountsOf(id: nat, o: Str, p1: nat): (r: Outcome)
    requires p1 < |o|
  {
    var p2 := Find(o, '/', p1 + 1);
    if p2 == |o| then
      var part := o[p1 + 1..];
      if Answers(part) then Returns(OwnerId(id, Decoded(part))) else NoAnswer
    else if Find(o, '/', p2 + 1) != |o| then Returns(INVALID)
    else TwoLevels(id, o[p1 + 1..p2], o[p2 + 1..])
  }

  function TwoLevels(id: nat, ownerPart: Str, part: Str): (r: Outcome) {
    if !Answers(ownerPart) || !Answers(part) then NoAnswer
    else if Decoded(part) == Decoded(ownerPart) then Returns(INVALID)
    else Returns(ContactId(OwnerId(id, Decoded(ownerPart)), Decoded(part)))
  }

  function UserIdOf(plugins: seq<ProtocolPlugin>, o: Str): (r: Outcome) {
    if !(PREFIX <= o) then Returns(INVALID)
    else
      var p1 := Find(o, '/', 23);
      if p1 == |o| then Returns(INVALID)
      else
        var id := IdOf(plugins, o[22..p1]);
        if id == 0 then Returns(INVALID) else AccountsOf(id, o, p1)
  }

  lemma NoSlash(s: Str)
    ensures '/' !in Encoded(s)
  {
    EncodingAlphabet(s);
  }

  lemma SlashFoundAt(a: Str, b: Str, from: nat)
    requires from <= |a| && '/' !in a[from..]
    ensures var o := a + "/" + b;
      Find(o, '/', from) == |a| < |o| && o[..|a|] == a && o[|a| + 1..] == b
  {
    var o := a + "/" + b;
    assert forall k :: from <= k < |a| ==> o[k] == a[from..][k - from];
    FindIs(o, '/', from, |a|);
  }

  lemma NoSlashFound(o: Str, from: nat)
    requires from <= |o| && '/' !in o[from..]
    ensures Find(o, '/', from) == |o|
  {
    assert forall k :: from <= k < |o| ==> o[k] == o[from..][k - from];
    FindIs(o, '/', from, |o|);
  }

  lemma Between(o: Str, m: nat, n: nat)
    requires m <= n <= |o|
    ensures o[m..n] == o[..n][m..]
  {}

  // The head of a path, up to and with the protocol.
  lemma ProtocolIsFound(name: Str, rest: Str)
    requires name != [] && '/' !in name[1..]
    ensures var o := PREFIX + name + "/" + rest;
      var p1 := Find(o, '/', 23);
      PREFIX <= o && p1 == 22 + |name| < |o| && o[22..p1] == name && o[p1 + 1..] == rest
  {
    var a := PREFIX + name;
    var o := a + "/" + rest;
    assert a[23..] == name[1..] && a[22..] == name;
    SlashFoundAt(a, rest, 23);
    Between(o, 22, 22 + |name|);
    assert PREFIX <= a <= o;
  }

  lemma ProtocolLeads(plugins: seq<ProtocolPlugin>, id: nat, rest: Str)
    requires Resolves(plugins, id)
    ensures var o := Head(id) + "/" + rest;
      UserIdOf(plugins, o) == AccountsOf(id, o, |Head(id)|)
  {
    ProtocolIsFound(NameOf(id), rest);
    hide IdOf, NameOf, AccountsOf, Find;
  }

  // The last two parts, split at the slash between them.
  lemma TwoPartsAreFound(head: Str, ownerPart: Str, part: Str)
    requires '/' !in ownerPart && '/' !in part
    ensures var o := head + "/" + (ownerPart + "/" + part);
      var from := |head| + 1;
      var p2 := Find(o, '/', from);
      from <= p2 < |o| && o[from..p2] == ownerPart && o[p2 + 1..] == part && Find(o, '/', p2 + 1) == |o|
  {
    var a := head + "/" + ownerPart;
    var o := head + "/" + (ownerPart + "/" + part);
    assert o == a + "/" + part;
    assert a[|head| + 1..] == ownerPart;
    SlashFoundAt(a, part, |head| + 1);
    Between(o, |head| + 1, |a|);
    NoSlashFound(o, |a| + 1);
  }

  lemma OneAccount(id: nat, head: Str, part: Str)
    requires '/' !in part
    ensures AccountsOf(id, head + "/" + part, |head|) ==
            if Answers(part) then Returns(OwnerId(id, Decoded(part))) else NoAnswer
  {
    hide Answers, OwnerId, Decoded, TwoLevels, Find;
    var o := head + "/" + part;
    assert o[|head| + 1..] == part;
    NoSlashFound(o, |head| + 1);
  }

  lemma TwoAccounts(id: nat, head: Str, ownerPart: Str, part: Str)
    requires '/' !in ownerPart && '/' !in part
    ensures AccountsOf(id, head + "/" + (ownerPart + "/" + part), |head|) == TwoLevels(id, ownerPart, part)
  {
    hide Answers, OwnerId, Decoded, TwoLevels, Find;
    TwoPartsAreFound(head, ownerPart, part);
  }

  predicate TwoAlphaNums(s: Str) {
    |s| == 2 && IsAlphaNum(s[0]) && IsAlphaNum(s[1])
  }

  /** A printed path is parsed to the id it was printed from, for owners and contacts
      alike and also with empty accounts, exactly when no account in it is two alphanumerics. */
  lemma PathRoundTripIff(plugins: seq<ProtocolPlugin>, u: UserId)
    requires u.Normal() && Resolves(plugins, u.protocolId)
    ensures UserIdOf(plugins, PathOf(u)) == Returns(u) <==> !TwoAlphaNums(u.account) && !TwoAlphaNums(u.owner)
  {
    hide UserIdOf, Resolves, Encoded, Decoded, NormalizeId, Answers, Head;
    NoSlash(u.account);
    NoSlash(u.owner);
    DecodedUndoesEncoded(u.account);
    DecodedUndoesEncoded(u.owner);
    EncodedAnswersIffNotTwo(u.account);
    EncodedAnswersIffNotTwo(u.owner);
    var id, head, owner, account := u.protocolId, Head(u.protocolId), Encoded(u.owner), Encoded(u.account);
    if u.IsOwner() {
      assert head + [] == head;
      ProtocolLeads(plugins, id, account);
      OneAccount(id, head, account);
    } else {
      assert head + ("/" + owner) + "/" + account == head + "/" + (owner + "/" + account);
      ProtocolLeads(plugins, id, owner + "/" + account);
      TwoAccounts(id, head, owner, account);
    }
  }

  /** Two ids never share a path. */
  lemma PathsDiffer(plugins: seq<ProtocolPlugin>, u: UserId, v: UserId)
    requires u.Normal() && Resolves(plugins, u.protocolId) && v.Normal() && Resolves(plugins, v.protocolId)
    requires !TwoAlphaNums(u.account) && !TwoAlphaNums(u.owner)
    requires PathOf(u) == PathOf(v)
    requires !TwoAlphaNums(v.account) && !TwoAlphaNums(v.owner)
    ensures u == v
  {
    PathRoundTripIff(plugins, u);
    PathRoundTripIff(plugins, v);
  }

  /** A path of three levels can still name an owner: its last two levels are told
      apart before they are normalised. */
  lemma ContactPathNamesAnOwnerIff(plugins: seq<ProtocolPlugin>, id: nat, ownerPart: Str, part: Str)
    requires Resolves(plugins, id) && '/' !in ownerPart && '/' !in part && Answers(ownerPart) && Answers(part)
    ensures var r := UserIdOf(plugins, Head(id) + "/" + (ownerPart + "/" + part));
      r.Returns? && (r.u.IsValid() && r.u.IsOwner() <==>
        Decoded(part) != Decoded(ownerPart) && NormalizeId(Decoded(part), id) == NormalizeId(Decoded(ownerPart), id))
  {
    hide UserIdOf, Decoded, NormalizeId, Head;
    ProtocolLeads(plugins, id, ownerPart + "/" + part);
    TwoAccounts(id, Head(id), ownerPart, part);
  }

  // ----- valid object paths -----

  /** "Valid Object Paths" of the D-Bus Specification. */
  predicate IsObjectPath(o: Str) {
    && o != [] && o[0] == '/'
    && (forall k :: 0 <= k < |o| ==> o[k] == '/' || o[k] == '_' || IsAlphaNum(o[k]))
    && (forall k :: 0 < k < |o| && o[k] == '/' ==> o[k - 1] != '/')
    && (|o| > 1 ==> o[|o| - 1] != '/')
  }

  predicate IsPart(s: Str) {
    s != [] && forall k :: 0 <= k < |s| ==> s[k] == '_' || IsAlphaNum(s[k])
  }

  lemma PartAppended(o: Str, s: Str)
    requires IsObjectPath(o) && |o| > 1
    requires forall k :: 0 <= k < |s| ==> s[k] == '_' || IsAlphaNum(s[k])
    ensures IsObjectPath(o + "/" + s) <==> s != []
  {
    var p := o + "/" + s;
    assert forall k :: 0 <= k < |p| ==> p[k] == if k < |o| then o[k] else if k == |o| then '/' else s[k - |o| - 1];
  }

  lemma EmptyPartStays(o: Str, s: Str)
    requires |o| > 1
    ensures !IsObjectPath(o + "/" + "/" + s)
  {
    var p := o + "/" + "/" + s;
    assert p[|o|] == '/' && p[|o| + 1] == '/';
  }

  /** The path is one the bus accepts exactly when no account in it is empty. */
  lemma PathIsValidIff(u: UserId)
    requires u.Normal() && IsPart(NameOf(u.protocolId))
    ensures IsObjectPath(PathOf(u)) <==> u.account != [] && u.owner != []
  {
    hide NameOf, Encoded, NormalizeId;
    EncodingAlphabet(u.account);
    EncodingAlphabet(u.owner);
    var root: Str := "/org/licq/ContactList";
    var name := NameOf(u.protocolId);
    var head := Head(u.protocolId);
    assert head == root + "/" + name;
    PartAppended(root, name);
    if u.IsOwner() {
      assert head + [] == head;
      PartAppended(head, Encoded(u.account));
    } else {
      Assoc(head, "/", Encoded(u.owner));
      if u.owner == [] {
        assert head + "/" + [] == head + "/";
        EmptyPartStays(head, Encoded(u.account));
      } else {
        PartAppended(head, Encoded(u.owner));
        PartAppended(head + "/" + Encoded(u.owner), Encoded(u.account));
      }
    }
  }
}
