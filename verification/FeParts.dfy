/**
 Messages made of parts delimited by 0xFE (icq/src/icq.cpp:2033-2085): splitFE, and
 the contact lists that icqSendContactList writes (icq/src/icq-tcp.cpp:376-390) and
 parseContactEvent reads. The translation of a part to UTF-8 is any function.
 */
module FeParts {
  import opened Sequences
  import opened Bytes

  type Str = seq<Byte>

  const FE: Byte := 0xFE

  function FindFe(s: Str, pos: nat): (n: nat)
    requires pos <= |s|
    ensures pos <= n <= |s| && (n < |s| ==> s[n] == FE)
    ensures forall k :: pos <= k < n ==> s[k] != FE
    decreases |s| - pos
  {
    if pos == |s| || s[pos] == FE then pos else FindFe(s, pos + 1)
  }

  predicate Splits(max: int) {
    max == 0 || max > 1
  }

  function Less(max: int): int {
    if max > 0 then max - 1 else max
  }

  // The parts before their translation; zero is no limit, as are none with one.
  function Parts(s: Str, max: int): (ps: seq<Str>)
    ensures ps != []
    decreases |s|
  {
    var n := FindFe(s, 0);
    if Splits(max) && n < |s| then [s[..n]] + Parts(s[n + 1..], Less(max)) else [s]
  }

  function Translated(ps: seq<Str>, toUtf8: Str -> Str): (r: seq<Str>)
    ensures |r| == |ps| && forall i :: 0 <= i < |ps| ==> r[i] == toUtf8(ps[i])
  {
    seq(|ps|, i requires 0 <= i < |ps| => toUtf8(ps[i]))
  }

  lemma FindInRest(s: Str, pos: nat)
    requires pos <= |s|
    ensures FindFe(s[pos..], 0) == FindFe(s, pos) - pos
  {}

  method SplitFe(s: Str, maxcount: int, toUtf8: Str -> Str) returns (ret: seq<Str>)
    ensures ret == Translated(Parts(s, maxcount), toUtf8)
  {
    hide Parts, Translated, FindFe;
    ret := [];
    var pos, max := 0, maxcount;
    ghost var done: seq<Str> := [];
    assert s[0..] == s;
    while max == 0 || max > 1
      invariant 0 <= pos <= |s|
      invariant done + Parts(s[pos..], max) == Parts(s, maxcount) && ret == Translated(done, toUtf8)
      decreases |s| - pos
    {
      var pos2 := FindFe(s, pos);
      if pos2 == |s| {
        break;
      }
      OnePart(s, pos, max, done);
      OneTranslated(done, s[pos..pos2], toUtf8);
      ret := ret + [toUtf8(s[pos..pos2])];
      done := done + [s[pos..pos2]];
      if max > 0 {
        max := max - 1;
      }
      pos := pos2 + 1;
    }
    LastPart(s, pos, max);
    OneTranslated(done, s[pos..], toUtf8);
    ret := ret + [toUtf8(s[pos..])];
  }

  lemma OneTranslated(ps: seq<Str>, p: Str, toUtf8: Str -> Str)
    ensures Translated(ps + [p], toUtf8) == Translated(ps, toUtf8) + [toUtf8(p)]
  {}

  lemma LastPart(s: Str, pos: nat, max: int)
    requires pos <= |s| && (Splits(max) ==> FindFe(s, pos) == |s|)
    ensures Parts(s[pos..], max) == [s[pos..]]
  {
    FindInRest(s, pos);
  }

  lemma OnePart(s: Str, pos: nat, max: int, done: seq<Str>)
    requires pos <= |s| && Splits(max) && FindFe(s, pos) < |s|
    ensures var n := FindFe(s, pos);
      done + Parts(s[pos..], max) == done + [s[pos..n]] + Parts(s[n + 1..], Less(max))
  {
    var n := FindFe(s, pos);
    FindInRest(s, pos);
    DropTwice(s, pos, n - pos + 1);
    assert s[pos..][..n - pos] == s[pos..n];
    Assoc(done, [s[pos..n]], Parts(s[n + 1..], Less(max)));
  }

  // ----- splitting and joining -----

  function Join(ps: seq<Str>): (s: Str) {
    if ps == [] then [] else if |ps| == 1 then ps[0] else ps[0] + [FE] + Join(ps[1..])
  }

  /** Nothing is lost: whatever the limit, the parts joined are the message. */
  lemma {:induction false} PartsJoin(s: Str, max: int)
    ensures Join(Parts(s, max)) == s
    decreases |s|
  {
    var n := FindFe(s, 0);
    if Splits(max) && n < |s| {
      PartsJoin(s[n + 1..], Less(max));
      var ps := Parts(s[n + 1..], Less(max));
      assert ([s[..n]] + ps)[1..] == ps;
      assert s == s[..n] + [FE] + s[n + 1..];
    }
  }

  /** No part but the last holds a delimiter, the last only if the limit was reached. */
  lemma {:induction false} PartsAreFree(s: Str, max: int)
    ensures var ps := Parts(s, max);
      && (forall i :: 0 <= i < |ps| - 1 ==> FE !in ps[i])
      && (FE in ps[|ps| - 1] ==> max != 0 && (|ps| == max || (max < 0 && |ps| == 1)))
      && (max > 0 ==> |ps| <= max)
    decreases |s|
  {
    var n := FindFe(s, 0);
    if Splits(max) && n < |s| {
      PartsAreFree(s[n + 1..], Less(max));
      var ps := Parts(s[n + 1..], Less(max));
      assert forall i :: 1 <= i < |Parts(s, max)| ==> Parts(s, max)[i] == ps[i - 1];
    }
  }

  predicate FreeBut(ps: seq<Str>, last: bool) {
    forall i :: 0 <= i < |ps| && (last || i < |ps| - 1) ==> FE !in ps[i]
  }

  /** Parts joined are split into themselves again, without a limit or with the limit
      that is their number, exactly when none of them holds a delimiter; with the
      limit the last one may. */
  lemma {:induction false} JoinSplitsIff(ps: seq<Str>, max: int)
    requires ps != [] && (max == 0 || max == |ps|)
    ensures Parts(Join(ps), max) == ps <==> FreeBut(ps, max == 0)
    decreases |ps|
  {
    PartsAreFree(Join(ps), max);
    if FreeBut(ps, max == 0) {
      FreePartsSplit(ps, max);
    }
  }

  lemma {:induction false} FreePartsSplit(ps: seq<Str>, max: int)
    requires ps != [] && (max == 0 || max == |ps|) && FreeBut(ps, max == 0)
    ensures Parts(Join(ps), max) == ps
    decreases |ps|
  {
    var s, p := Join(ps), ps[0];
    if |ps| == 1 {
      assert max == 0 ==> FindFe(s, 0) == |s|;
    } else {
      var rest := Join(ps[1..]);
      assert FreeBut(ps[1..], max == 0) by {
        assert forall i :: 0 <= i < |ps[1..]| ==> ps[1..][i] == ps[i + 1];
      }
      FreePartsSplit(ps[1..], Less(max));
      hide Join, FreeBut;
      assert s == p + ([FE] + rest);
      FirstFeAt(p, rest);
      assert s[..|p|] == p && s[|p| + 1..] == rest;
      assert ps == [p] + ps[1..];
    }
  }

  lemma FirstFeAt(p: Str, rest: Str)
    requires FE !in p
    ensures FindFe(p + ([FE] + rest), 0) == |p|
  {
    var s := p + ([FE] + rest);
    assert forall k :: 0 <= k < |p| ==> s[k] == p[k];
    assert s[|p|] == FE;
  }

  // ----- decimal numbers -----

  function Decimal(n: nat): (s: Str)
    ensures s != []
  {
    if n < 10 then [48 + n] else Decimal(n / 10) + [48 + n % 10]
  }

  predicate IsDigit(b: Byte) {
    48 <= b <= 57
  }

  predicate IsSpace(b: Byte) {
    b == 0x20 || 9 <= b <= 13
  }

  function Digits(s: Str, n: nat): (r: nat) {
    if s == [] || !IsDigit(s[0]) then n else Digits(s[1..], 10 * n + s[0] - 48)
  }

  /** atoi, for numbers that fit an int. */
  function Atoi(s: Str): (n: int) {
    if s == [] then 0
    else if IsSpace(s[0]) then Atoi(s[1..])
    else if s[0] == 45 then 0 - Digits(s[1..], 0)
    else if s[0] == 43 then Digits(s[1..], 0)
    else Digits(s, 0)
  }

  lemma {:induction false} DigitsConcat(a: Str, b: Str, n: nat)
    requires forall i :: 0 <= i < |a| ==> IsDigit(a[i])
    ensures Digits(a + b, n) == Digits(b, Digits(a, n))
    decreases |a|
  {
    if a == [] {
      assert a + b == b;
    } else {
      DropInLeft(a, b, 1);
      DigitsConcat(a[1..], b, 10 * n + a[0] - 48);
    }
  }

  lemma {:induction false} DecimalDigits(n: nat)
    ensures forall i :: 0 <= i < |Decimal(n)| ==> IsDigit(Decimal(n)[i])
    ensures Digits(Decimal(n), 0) == n
  {
    if n >= 10 {
      DecimalDigits(n / 10);
      DigitsConcat(Decimal(n / 10), [48 + n % 10], 0);
      assert [48 + n % 10][1..] == [];
    } else {
      assert [48 + n][1..] == [];
    }
  }

  lemma AtoiOfDecimal(n: nat)
    ensures Atoi(Decimal(n)) == n && FE !in Decimal(n)
  {
    DecimalDigits(n);
    assert IsDigit(Decimal(n)[0]);
  }

  /** atoi skips white space, takes one sign, and stops at the first octet that is no digit. */
  lemma {:induction false} AtoiReads(blank: Str, sign: Str, n: nat, rest: Str)
    requires forall i :: 0 <= i < |blank| ==> blank[i] == 0x20 || 0x09 <= blank[i] <= 0x0D
    requires sign == [] || sign == [0x2B] || sign == [0x2D]
    requires rest == [] || !(0x30 <= rest[0] <= 0x39)
    ensures Atoi(blank + (sign + (Decimal(n) + rest))) == n * if sign == [0x2D] then -1 else 1
  {
    var d := Decimal(n) + rest;
    if blank == [] {
      assert blank + (sign + d) == sign + d;
      DecimalDigits(n);
      DigitsConcat(Decimal(n), rest, 0);
      assert IsDigit(Decimal(n)[0]) && d[0] == Decimal(n)[0];
      if sign == [] {
        assert sign + d == d;
      } else {
        assert (sign + d)[1..] == d;
      }
    } else {
      DropInLeft(blank, sign + d, 1);
      AtoiReads(blank[1..], sign, n, rest);
    }
  }

  /** Text that starts with neither white space, a sign nor a digit is zero. */
  lemma AtoiOfOther(s: Str)
    requires s == [] || !(s[0] == 0x20 || 0x09 <= s[0] <= 0x0D || s[0] == 0x2B || s[0] == 0x2D || 0x30 <= s[0] <= 0x39)
    ensures Atoi(s) == 0
  {}

  // ----- contact lists -----

  datatype Contact = Contact(id: Str, alias: Str)

  // What icqSendContactList streams, part by part; its last delimiter leaves an empty part.
  function Fields(cs: seq<Contact>): (ps: seq<Str>)
    ensures |ps| == 2 * |cs| + 1
  {
    if cs == [] then [[]] else [cs[0].id, cs[0].alias] + Fields(cs[1..])
  }

  function Message(cs: seq<Contact>): (s: Str) {
    Join([Decimal(|cs|)] + Fields(cs))
  }

  const WORD := 0x1_0000_0000_0000_0000

  // The arithmetic of size_t.
  function Wrap(n: int): (r: nat) {
    n % WORD
  }

  // Throws: vector::at leaves the vector.
  datatype Parsed = List(contacts: seq<Contact>) | Null | Throws

  function ContactsOf(ps: seq<Str>, count: nat): (cs: seq<Contact>)
    requires |ps| >= 2 * count + 1
    ensures |cs| == count && forall i :: 0 <= i < count ==> cs[i] == Contact(ps[2 * i + 1], ps[2 * i + 2])
  {
    seq(count, i requires 0 <= i < count => Contact(ps[2 * i + 1], ps[2 * i + 2]))
  }

  function ParseContacts(s: Str, toUtf8: Str -> Str): (r: Parsed) {
    var parts := Translated(Parts(s, 0), toUtf8);
    var count := Wrap(Atoi(parts[0]));
    if |parts| < Wrap(2 * count + 2) then Null
    else if |parts| < 2 * count + 1 then Throws
    else List(ContactsOf(parts, count))
  }

  // The loop over the contacts; false where a part is missing.
  method ReadContacts(parts: seq<Str>, count: nat) returns (ok: bool, vc: seq<Contact>)
    ensures ok == (count == 0 || |parts| >= 2 * count + 1)
    ensures ok && count > 0 ==> vc == ContactsOf(parts, count)
    ensures count == 0 ==> vc == []
  {
    vc := [];
    var i := 0;
    while i < count
      invariant 0 <= i <= count && (i == 0 || |parts| >= 2 * i + 1)
      invariant if i == 0 then vc == [] else vc == ContactsOf(parts, i)
    {
      if 2 * i + 2 >= |parts| {
        return false, vc;
      }
      vc := vc + [Contact(parts[2 * i + 1], parts[2 * i + 2])];
      i := i + 1;
    }
    ok := true;
  }

  method ParseContactEvent(s: Str, toUtf8: Str -> Str) returns (r: Parsed)
    ensures r == ParseContacts(s, toUtf8)
  {
    hide Atoi;
    var parts := SplitFe(s, 0, toUtf8);
    var count := Wrap(Atoi(parts[0]));
    if |parts| < Wrap(2 * count + 2) {
      return Null;
    }
    var ok, vc := ReadContacts(parts, count);
    r := if ok then List(vc) else Throws;
  }

  /** Reading leaves the vector exactly when the count is -1, which wraps the required
      number of parts round to zero. */
  lemma ThrowsIff(s: Str, toUtf8: Str -> Str)
    requires |s| < 0x7FFF_FFFF
    requires -0x8000_0000 <= Atoi(toUtf8(Parts(s, 0)[0])) < 0x8000_0000
    ensures ParseContacts(s, toUtf8) == Throws <==> Atoi(toUtf8(Parts(s, 0)[0])) == -1
  {
    hide Parts, Atoi, ContactsOf, Wrap;
    FewParts(s, 0);
    ThrowsArithmetic(|Parts(s, 0)|, Atoi(toUtf8(Parts(s, 0)[0])));
  }

  // size is the number of parts, c the number that stands in the first.
  lemma ThrowsArithmetic(size: nat, c: int)
    requires size < 0x8000_0000 && -0x8000_0000 <= c < 0x8000_0000
    ensures size >= Wrap(2 * Wrap(c) + 2) && size < 2 * Wrap(c) + 1 <==> c == -1
  {
    hide Wrap;
    Wrapped(c);
  }

  lemma {:induction false} FewParts(s: Str, max: int)
    ensures |Parts(s, max)| <= |s| + 1
    decreases |s|
  {
    var n := FindFe(s, 0);
    if Splits(max) && n < |s| {
      FewParts(s[n + 1..], Less(max));
    }
  }

  lemma Wrapped(c: int)
    requires -0x8000_0000 <= c < 0x8000_0000
    ensures Wrap(c) == if c < 0 then c + WORD else c
    ensures Wrap(2 * Wrap(c) + 2) == if c < -1 then 2 * c + 2 + WORD else 2 * c + 2
  {
    if c < 0 {
      assert c == -1 * WORD + (c + WORD);
      assert 2 * (c + WORD) + 2 == if c < -1 then WORD + (2 * c + 2 + WORD) else 2 * WORD + (2 * c + 2);
    }
  }

  lemma {:induction false} FieldsAt(cs: seq<Contact>, i: nat)
    requires i < |cs|
    ensures Fields(cs)[2 * i] == cs[i].id && Fields(cs)[2 * i + 1] == cs[i].alias
  {
    if i > 0 {
      FieldsAt(cs[1..], i - 1);
    }
  }

  predicate NoFe(cs: seq<Contact>) {
    forall i :: 0 <= i < |cs| ==> FE !in cs[i].id && FE !in cs[i].alias
  }

  lemma FreeWithHead(p: Str, ps: seq<Str>)
    ensures FreeBut([p] + ps, true) <==> FE !in p && FreeBut(ps, true)
  {
    assert forall i :: 0 <= i < |ps| ==> ps[i] == ([p] + ps)[i + 1];
    assert ([p] + ps)[0] == p;
  }

  lemma NoFeWithHead(cs: seq<Contact>)
    requires cs != []
    ensures NoFe(cs) <==> FE !in cs[0].id && FE !in cs[0].alias && NoFe(cs[1..])
  {
    assert forall i :: 0 <= i < |cs[1..]| ==> cs[1..][i] == cs[i + 1];
  }

  lemma {:induction false} FieldsFreeIff(cs: seq<Contact>)
    ensures FreeBut(Fields(cs), true) <==> NoFe(cs)
  {
    if cs != [] {
      FieldsFreeIff(cs[1..]);
      hide FreeBut, NoFe;
      var rest := Fields(cs[1..]);
      FreeWithHead(cs[0].alias, rest);
      FreeWithHead(cs[0].id, [cs[0].alias] + rest);
      NoFeWithHead(cs);
      assert Fields(cs) == [cs[0].id] + ([cs[0].alias] + rest);
    }
  }

  lemma PartsOfMessage(cs: seq<Contact>)
    ensures Parts(Message(cs), 0) == [Decimal(|cs|)] + Fields(cs) <==> NoFe(cs)
  {
    hide FreeBut, Parts, Join, Fields, Decimal, NoFe;
    AtoiOfDecimal(|cs|);
    FieldsFreeIff(cs);
    FreeWithHead(Decimal(|cs|), Fields(cs));
    JoinSplitsIff([Decimal(|cs|)] + Fields(cs), 0);
  }

  function AllTranslated(cs: seq<Contact>, toUtf8: Str -> Str): (r: seq<Contact>)
    ensures |r| == |cs|
    ensures forall i :: 0 <= i < |cs| ==> r[i] == Contact(toUtf8(cs[i].id), toUtf8(cs[i].alias))
  {
    seq(|cs|, i requires 0 <= i < |cs| => Contact(toUtf8(cs[i].id), toUtf8(cs[i].alias)))
  }

  lemma FieldAt(head: Str, cs: seq<Contact>, i: nat)
    requires i < |cs|
    ensures ([head] + Fields(cs))[2 * i + 1] == cs[i].id && ([head] + Fields(cs))[2 * i + 2] == cs[i].alias
  {
    FieldsAt(cs, i);
    hide Fields;
  }

  lemma ContactsOfFields(cs: seq<Contact>, head: Str, toUtf8: Str -> Str)
    ensures ContactsOf(Translated([head] + Fields(cs), toUtf8), |cs|) == AllTranslated(cs, toUtf8)
  {
    hide Fields, ContactsOf, AllTranslated, Translated;
    var ps := [head] + Fields(cs);
    var read := ContactsOf(Translated(ps, toUtf8), |cs|);
    forall i: nat | i < |cs|
      ensures read[i] == Contact(toUtf8(cs[i].id), toUtf8(cs[i].alias))
    {
      FieldAt(head, cs, i);
      assert read[i] == Contact(toUtf8(ps[2 * i + 1]), toUtf8(ps[2 * i + 2]));
    }
  }

  /** A contact list whose ids and aliases hold no delimiter is read as it was sent,
      every field translated; the translation must leave decimal digits alone. */
  lemma ContactsAreRead(cs: seq<Contact>, toUtf8: Str -> Str)
    requires |cs| < 0x8000_0000 && NoFe(cs) && toUtf8(Decimal(|cs|)) == Decimal(|cs|)
    ensures ParseContacts(Message(cs), toUtf8) == List(AllTranslated(cs, toUtf8))
  {
    hide Parts, Fields, Decimal, Atoi, NoFe, ContactsOf, AllTranslated, Message;
    PartsOfMessage(cs);
    AtoiOfDecimal(|cs|);
    Wrapped(|cs|);
    ContactsOfFields(cs, Decimal(|cs|), toUtf8);
  }

  lemma FirstPart(p: Str, rest: Str)
    requires FE !in p
    ensures Parts(p + ([FE] + rest), 0)[0] == p
  {
    FirstFeAt(p, rest);
    TakeInLeft(p, [FE] + rest, |p|);
    hide FindFe;
  }

  lemma JoinOfMore(p: Str, ps: seq<Str>)
    requires ps != []
    ensures Join([p] + ps) == p + ([FE] + Join(ps))
  {
    assert ([p] + ps)[1..] == ps;
    Assoc(p, [FE], Join(ps));
  }

  // The count is read, whatever the fields hold.
  lemma CountIsRead(cs: seq<Contact>)
    ensures Parts(Message(cs), 0)[0] == Decimal(|cs|)
  {
    hide Parts, Join, Decimal, Fields;
    AtoiOfDecimal(|cs|);
    JoinOfMore(Decimal(|cs|), Fields(cs));
    FirstPart(Decimal(|cs|), Join(Fields(cs)));
  }

  function Same(p: Str): Str {
    p
  }

  lemma SameContacts(cs: seq<Contact>)
    ensures AllTranslated(cs, Same) == cs
  {
    assert forall i :: 0 <= i < |cs| ==> AllTranslated(cs, Same)[i] == cs[i];
  }

  lemma ContactsAreFree(ps: seq<Str>, count: nat)
    requires |ps| >= 2 * count + 1 && forall i :: 0 <= i < |ps| ==> FE !in ps[i]
    ensures NoFe(ContactsOf(ps, count))
  {}

  /** Without a translation the list comes back exactly when none of them does. */
  lemma ContactsRoundTripIff(cs: seq<Contact>)
    requires |cs| < 0x8000_0000
    ensures ParseContacts(Message(cs), Same) == List(cs) <==> NoFe(cs)
  {
    hide Parts, Fields, Decimal, Atoi, NoFe, ContactsOf, Message;
    if NoFe(cs) {
      ContactsAreRead(cs, Same);
      SameContacts(cs);
    }
    CountIsRead(cs);
    AtoiOfDecimal(|cs|);
    Wrapped(|cs|);
    var parts := Parts(Message(cs), 0);
    PartsAreFree(Message(cs), 0);
    assert Translated(parts, Same) == parts;
    if |parts| >= 2 * |cs| + 1 {
      ContactsAreFree(parts, |cs|);
    }
  }
}
