/**
 kses_bad_protocol and what it calls (licqweb/kses.php:379-421, 468-506,
 542-556): strip a protocol that is not whitelisted from the front of a string,
 until that changes nothing. Strings are strings of bytes.
 */
module KsesProtocol {
  import opened Sequences
  import opened KsesEntities

  // \s
  predicate IsSpace(c: char) {
    c == ' ' || c == '\t' || c == '\n' || c == '\r' || c == '\U{000C}'
  }

  const NUL := '\0'
  const SOFT_HYPHEN := '\U{00AD}'

  // ----- filters -----

  datatype Filter = NotNul | NotSoftHyphen | NotSpace

  predicate Keeps(f: Filter, c: char) {
    match f
    case NotNul => c != NUL
    case NotSoftHyphen => c != SOFT_HYPHEN
    case NotSpace => !IsSpace(c)
  }

  function Strip(f: Filter, s: string): (r: string)
    ensures |r| <= |s| && (|r| == |s| ==> r == s)
    ensures (forall c | c in s :: Keeps(f, c)) ==> r == s
  {
    if s == "" then "" else
      assert [s[0]] + s[1..] == s;
      (if Keeps(f, s[0]) then [s[0]] else "") + Strip(f, s[1..])
  }

  // (\\0)+ : a backslash and a zero digit
  function StripBackslashZero(s: string): (r: string)
    ensures |r| <= |s| && (|r| == |s| ==> r == s)
    decreases |s|
  {
    if s == "" then ""
    else if |s| >= 2 && s[0] == '\\' && s[1] == '0' then StripBackslashZero(s[2..])
    else
      assert [s[0]] + s[1..] == s;
      [s[0]] + StripBackslashZero(s[1..])
  }

  // kses_no_null
  function NoNull(s: string): (r: string)
    ensures |r| <= |s| && (|r| == |s| ==> r == s)
  {
    StripBackslashZero(Strip(NotNul, s))
  }

  function LowerChar(c: char): (r: char) {
    if 'A' <= c <= 'Z' then (c as int + 32) as char else c
  }

  function Lower(s: string): (r: string)
    ensures |r| == |s| && forall i :: 0 <= i < |s| ==> r[i] == LowerChar(s[i])
  {
    seq(|s|, i requires 0 <= i < |s| => LowerChar(s[i]))
  }

  // ----- numeric entities -----

  function HexDigitValue(c: char): (n: nat)
    requires IsHex(c)
  {
    if IsDigit(c) then c as int - '0' as int else if c >= 'a' then c as int - 'a' as int + 10 else c as int - 'A' as int + 10
  }

  function HexValue(g: string): (n: nat)
    requires forall i :: 0 <= i < |g| ==> IsHex(g[i])
  {
    if g == "" then 0 else 16 * HexValue(g[..|g| - 1]) + HexDigitValue(g[|g| - 1])
  }

  // chr
  function Chr(n: nat): char {
    (n % 0x100) as char
  }

  // &#([0-9]+); at the head of a string: its length, or 0
  function DecimalEntity(s: string): (n: nat)
    ensures n <= |s| && (n > 0 ==> n >= 4)
  {
    if |s| < 2 || s[0] != '&' || s[1] != '#' then 0
    else
      var run := Run(Digits, s[2..]);
      if run > 0 && run + 2 < |s| && s[run + 2] == ';' then run + 3 else 0
  }

  // &#[Xx]([0-9A-Fa-f]+);
  function HexEntity(s: string): (n: nat)
    ensures n <= |s| && (n > 0 ==> n >= 5)
  {
    if |s| < 3 || s[0] != '&' || s[1] != '#' || (s[2] != 'X' && s[2] != 'x') then 0
    else
      var run := Run(Hex, s[3..]);
      if run > 0 && run + 3 < |s| && s[run + 3] == ';' then run + 4 else 0
  }

  function DecodeDecimals(s: string): (r: string)
    ensures |r| <= |s| && (|r| == |s| ==> r == s)
    decreases |s|
  {
    if s == "" then ""
    else if DecimalEntity(s) > 0 then
      var n := DecimalEntity(s);
      [Chr(Value(s[2..][..n - 3]))] + DecodeDecimals(s[n..])
    else
      assert [s[0]] + s[1..] == s;
      [s[0]] + DecodeDecimals(s[1..])
  }

  function DecodeHexes(s: string): (r: string)
    ensures |r| <= |s| && (|r| == |s| ==> r == s)
    decreases |s|
  {
    if s == "" then ""
    else if HexEntity(s) > 0 then
      var n := HexEntity(s);
      [Chr(HexValue(s[3..][..n - 4]))] + DecodeHexes(s[n..])
    else
      assert [s[0]] + s[1..] == s;
      [s[0]] + DecodeHexes(s[1..])
  }

  /** kses_bad_protocol_once2 before the whitelist: decode, drop white space,
      NULs and soft hyphens, and lower the case. */
  function Canonical(w: string): (p: string)
    ensures |p| <= |w| && (|p| == |w| ==> p == Lower(w))
  {
    Lower(Strip(NotSoftHyphen, NoNull(Strip(NotSpace, DecodeHexes(DecodeDecimals(w))))))
  }

  predicate Whitelisted(p: string, allowed: seq<string>) {
    exists i :: 0 <= i < |allowed| && Lower(allowed[i]) == p
  }

  function Replacement(w: string, allowed: seq<string>): (r: string)
    ensures r == "" || (r == Canonical(w) + ":" && Whitelisted(Canonical(w), allowed))
  {
    if Whitelisted(Canonical(w), allowed) then Canonical(w) + ":" else ""
  }

  // ----- ^((&[^;]*;|[\sA-Za-z0-9])*)(:|&#58;|&#[Xx]3[Aa];)\s* -----

  // One round of the starred group at the head of s: its length, or 0.
  function Item(s: string): (n: nat)
    ensures n <= |s|
  {
    if s == "" then 0
    else if s[0] == '&' then ToSemicolon(s)
    else if IsSpace(s[0]) || IsDigit(s[0]) || IsLetter(s[0]) then 1
    else 0
  }

  // The length up to and including the first semicolon, or 0.
  function ToSemicolon(s: string): (n: nat)
    ensures n <= |s|
    ensures n > 0 ==> s[n - 1] == ';' && forall i :: 0 <= i < n - 1 ==> s[i] != ';'
    ensures n == 0 ==> ';' !in s
  {
    if s == "" then 0
    else if s[0] == ';' then 1
    else if ToSemicolon(s[1..]) > 0 then 1 + ToSemicolon(s[1..]) else 0
  }

  // One of the three spellings of a colon.
  predicate IsColon(w: string) {
    || (|w| == 1 && w[0] == ':')
    || (|w| == 5 && w[0] == '&' && w[1] == '#' && w[2] == '5' && w[3] == '8' && w[4] == ';')
    || (|w| == 6 && w[0] == '&' && w[1] == '#' && (w[2] == 'x' || w[2] == 'X') && w[3] == '3'
        && (w[4] == 'a' || w[4] == 'A') && w[5] == ';')
  }

  // A colon at the head of s: its length, or 0.
  function Colon(s: string): (n: nat)
    ensures n <= |s|
  {
    if |s| >= 1 && IsColon(s[..1]) then 1
    else if |s| >= 5 && IsColon(s[..5]) then 5
    else if |s| >= 6 && IsColon(s[..6]) then 6
    else 0
  }

  datatype Found = None | Some(group: nat, colon: nat)

  /** Greedy, with backtracking: as many rounds as possible, then give back rounds
      until a colon follows. */
  function Find(s: string): (f: Found)
    ensures f.Some? ==> f.group + f.colon <= |s| && f.colon == Colon(s[f.group..]) > 0
    decreases |s|
  {
    var here := if Colon(s) > 0 then Some(0, Colon(s)) else None;
    if Item(s) == 0 then here
    else
      match Find(s[Item(s)..])
      case Some(group, colon) =>
        assert s[Item(s)..][group..] == s[Item(s) + group..];
        Some(Item(s) + group, colon)
      case None => here
  }

  function SkipSpaces(s: string): (r: string)
    ensures |r| <= |s| && r == s[|s| - |r|..]
    ensures r == "" || !IsSpace(r[0])
  {
    if s != "" && IsSpace(s[0]) then SkipSpaces(s[1..]) else s
  }

  // The match replaced, and the white space behind it dropped.
  function Replaced(s: string, group: nat, colon: nat, allowed: seq<string>): (r: string)
    requires group + colon <= |s|
  {
    Replacement(s[..group], allowed) + SkipSpaces(s[group + colon..])
  }

  /** kses_bad_protocol_once */
  function Once(s: string, allowed: seq<string>): (r: string) {
    var f := Find(s);
    if f.None? then s else Replaced(s, f.group, f.colon, allowed)
  }

  // ----- the scanner is the pattern -----

  predicate IsItem(w: string) {
    || (|w| == 1 && (IsSpace(w[0]) || IsDigit(w[0]) || IsLetter(w[0])))
    || (|w| >= 2 && w[0] == '&' && w[|w| - 1] == ';' && forall i :: 0 <= i < |w| - 1 ==> w[i] != ';')
  }

  // w is any number of items, one after the other.
  predicate Items(w: string)
    decreases |w|
  {
    w == "" || exists n :: 0 < n <= |w| && IsItem(w[..n]) && Items(w[n..])
  }

  predicate Matches(s: string, group: nat, colon: nat) {
    group + colon <= |s| && Items(s[..group]) && IsColon(s[group..group + colon])
  }

  lemma ItemIsUnique(s: string, n: nat)
    requires 0 < n <= |s|
    ensures IsItem(s[..n]) <==> n == Item(s)
  {
    var w := s[..n];
    assert w[0] == s[0] && w[n - 1] == s[n - 1];
    assert forall i :: 0 <= i < n ==> w[i] == s[i];
    assert s[n - 1] in s;
    if s[0] == '&' {
      var m := ToSemicolon(s);
      assert 0 < m < n ==> w[m - 1] == ';';
      assert n == m ==> n >= 2;
      hide ToSemicolon;
    }
  }

  lemma ColonIsUnique(s: string, n: nat)
    requires n <= |s|
    ensures IsColon(s[..n]) <==> (n > 0 && n == Colon(s))
  {
    assert |s| >= 1 ==> s[..1][0] == s[0];
    assert |s| >= 5 ==> s[..5][0] == s[0] && s[..5][2] == s[2];
    assert |s| >= 6 ==> s[..6][0] == s[0] && s[..6][2] == s[2];
  }

  /** The scanner finds the match with the longest group, or there is none. */
  lemma {:induction false} FindIsLongest(s: string)
    ensures Find(s).Some? ==> Matches(s, Find(s).group, Find(s).colon)
    ensures forall g: nat, c: nat :: Matches(s, g, c) ==> Find(s).Some? && g <= Find(s).group
    decreases |s|
  {
    hide Item, Colon, Matches;
    var n := Item(s);
    if n > 0 {
      FindIsLongest(s[n..]);
      if Find(s[n..]).Some? {
        MatchesAhead(s, Find(s[n..]).group, Find(s[n..]).colon);
      }
    }
    if Colon(s) > 0 {
      MatchesHere(s);
    }
    forall g: nat, c: nat | Matches(s, g, c)
      ensures Find(s).Some? && g <= Find(s).group
    {
      MatchIsFound(s, g, c);
    }
  }

  lemma MatchesAhead(s: string, g: nat, c: nat)
    requires Item(s) > 0 && Matches(s[Item(s)..], g, c)
    ensures Matches(s, Item(s) + g, c)
  {
    hide Item, Colon, IsItem, IsColon, Items;
    var n := Item(s);
    ItemIsUnique(s, n);
    Slices(s, n, g, c);
    OneMoreItem(s[..n + g], n);
  }

  lemma MatchesHere(s: string)
    requires Colon(s) > 0
    ensures Matches(s, 0, Colon(s))
  {
    hide Colon, IsColon, Items;
    ColonIsUnique(s, Colon(s));
    NoItems();
    assert s[..0] == "";
  }

  lemma NoItems()
    ensures Items("")
  {}

  lemma OneMoreItem(w: string, n: nat)
    requires 0 < n <= |w| && IsItem(w[..n]) && Items(w[n..])
    ensures Items(w)
  {}

  lemma MatchIsFound(s: string, g: nat, c: nat)
    requires Matches(s, g, c)
    requires Item(s) > 0 ==>
      forall g': nat, c': nat :: Matches(s[Item(s)..], g', c') ==> Find(s[Item(s)..]).Some? && g' <= Find(s[Item(s)..]).group
    ensures Find(s).Some? && g <= Find(s).group
  {
    hide Item, Colon, IsItem, IsColon;
    if g == 0 {
      ColonIsUnique(s, c);
      assert s[0..c] == s[..c];
    } else {
      var w := s[..g];
      var n :| 0 < n <= |w| && IsItem(w[..n]) && Items(w[n..]);
      Slices(s, n, g - n, c);
      ItemIsUnique(s, n);
      assert Matches(s[n..], g - n, c);
    }
  }

  // ----- termination -----

  function Uppers(s: string): (n: nat) {
    if s == "" then 0 else (if 'A' <= s[0] <= 'Z' then 1 else 0) + Uppers(s[1..])
  }

  lemma {:induction false} UppersConcat(a: string, b: string)
    ensures Uppers(a + b) == Uppers(a) + Uppers(b)
  {
    if a == "" {
      assert a + b == b;
    } else {
      DropInLeft(a, b, 1);
      UppersConcat(a[1..], b);
    }
  }

  lemma {:induction false} LowerHasNoUppers(s: string)
    ensures Uppers(Lower(s)) == 0
    ensures Lower(s) != s ==> Uppers(s) > 0
  {
    if s != "" {
      LowerHasNoUppers(s[1..]);
      assert Lower(s)[1..] == Lower(s[1..]);
      if Lower(s[1..]) == s[1..] && LowerChar(s[0]) == s[0] {
        assert Lower(s) == [Lower(s)[0]] + Lower(s)[1..];
        assert s == [s[0]] + s[1..];
      }
    }
  }

  /** A round that keeps the length only lowers the case of a whitelisted protocol. */
  lemma SameLength(s: string, allowed: seq<string>, g: nat)
    requires |Once(s, allowed)| >= |s| && Find(s).Some? && Find(s).group == g < |s|
    ensures s == s[..g] + (":" + s[g + 1..]) && Find(s).colon == 1 && s[g] == ':'
    ensures Once(s, allowed) == Lower(s[..g]) + (":" + s[g + 1..])
    ensures Canonical(s[..g]) == Lower(s[..g]) && Whitelisted(Lower(s[..g]), allowed)
    ensures s[g + 1..] == "" || !IsSpace(s[g + 1])
  {
    hide *;
    var c := Find(s).colon;
    var w, rest := s[..g], s[g + c..];
    assert Once(s, allowed) == Replaced(s, g, c, allowed) by {
      OnceReplaces(s, allowed);
    }
    ReplacedByParts(s, g, c, allowed);
    var p := Replacement(w, allowed);
    assert p == Canonical(w) + ":" && c == 1 && SkipSpaces(rest) == rest;
    OneIsColon(s[g..]);
    OneMore(s, g);
    assert Canonical(w) == Lower(w);
    Assoc(Lower(w), ":", rest);
    Assoc(w, ":", rest);
    SplitAtColon(s, g);
  }

  lemma OnceReplaces(s: string, allowed: seq<string>)
    requires Find(s).Some?
    ensures Once(s, allowed) == Replaced(s, Find(s).group, Find(s).colon, allowed)
  {
    hide Find, Replaced;
  }

  lemma ReplacedByParts(s: string, g: nat, c: nat, allowed: seq<string>)
    requires g + c <= |s|
    ensures Replaced(s, g, c, allowed) == Replacement(s[..g], allowed) + SkipSpaces(s[g + c..])
  {
    hide Replacement, SkipSpaces;
  }

  lemma SplitAtColon(s: string, g: nat)
    requires g < |s| && s[g] == ':'
    ensures s == s[..g] + (":" + s[g + 1..])
  {}

  lemma OneIsColon(s: string)
    requires Colon(s) == 1
    ensures s[0] == ':'
  {}

  /** Every round that changes the string shortens it, or leaves it as long with fewer capitals. */
  lemma OnceShrinks(s: string, allowed: seq<string>)
    ensures var r := Once(s, allowed);
      r == s || |r| < |s| || (|r| == |s| && Uppers(r) < Uppers(s))
  {
    hide Find, Whitelisted, Canonical, Lower;
    if Find(s).Some? && |Once(s, allowed)| >= |s| {
      var g := Find(s).group;
      SameLength(s, allowed, g);
      hide Once;
      LowerHasNoUppers(s[..g]);
      UppersConcat(s[..g], ":" + s[g + 1..]);
      UppersConcat(Lower(s[..g]), ":" + s[g + 1..]);
    }
  }

  // ----- the loop -----

  function Until(s: string, allowed: seq<string>): (r: string)
    ensures Once(r, allowed) == r && |r| <= |s|
    decreases |s|, Uppers(s)
  {
    OnceShrinks(s, allowed);
    var next := Once(s, allowed);
    if next == s then s else Until(next, allowed)
  }

  function Cleaned(s: string): (r: string)
    ensures |r| <= |s| && (|r| == |s| ==> r == s)
  {
    Strip(NotSoftHyphen, NoNull(s))
  }

  function BadProtocol(s: string, allowed: seq<string>): (r: string)
    ensures Once(r, allowed) == r && |r| <= |s|
  {
    Until(Cleaned(s), allowed)
  }

  /** kses_bad_protocol */
  method RemoveBadProtocol(input: string, allowed: seq<string>) returns (result: string)
    ensures result == BadProtocol(input, allowed)
    ensures Once(result, allowed) == result
  {
    result := Cleaned(input);
    var previous := result + "a";
    ghost var goal := Until(result, allowed);
    while result != previous
      invariant Until(result, allowed) == goal
      invariant previous != result ==> |previous| > |result| || (|previous| == |result| && Uppers(previous) > Uppers(result))
      invariant previous == result ==> Once(result, allowed) == result
      decreases if result == previous then 0 else 1, |result|, Uppers(result)
    {
      previous := result;
      OnceShrinks(result, allowed);
      result := Once(result, allowed);
    }
  }

  /** What remains: no protocol prefix, or one that is whitelisted and written out
      plainly in lower case, with its colon and no white space behind it. */
  ghost predicate ProtocolIsFine(r: string, allowed: seq<string>) {
    || (forall g: nat, c: nat :: !Matches(r, g, c))
    || (exists g: nat :: PlainProtocol(r, g, allowed) && forall g': nat, c': nat :: Matches(r, g', c') ==> g' <= g)
  }

  predicate PlainProtocol(r: string, g: nat, allowed: seq<string>) {
    && g < |r| && Matches(r, g, 1) && r[g] == ':'
    && Canonical(r[..g]) == r[..g] == Lower(r[..g]) && Whitelisted(r[..g], allowed)
    && (g + 1 == |r| || !IsSpace(r[g + 1]))
  }

  /** A string is left alone exactly when its protocol, if it has one, is fine. */
  lemma FixpointIffFine(r: string, allowed: seq<string>)
    ensures Once(r, allowed) == r <==> ProtocolIsFine(r, allowed)
  {
    FindIsLongest(r);
    if Find(r).Some? {
      if Once(r, allowed) == r {
        FixpointIsPlain(r, allowed);
      }
      forall g: nat | PlainProtocol(r, g, allowed) && forall g': nat, c': nat :: Matches(r, g', c') ==> g' <= g
        ensures Once(r, allowed) == r
      {
        PlainIsFixpoint(r, g, allowed);
      }
    }
  }

  lemma FixpointIsPlain(r: string, allowed: seq<string>)
    requires Once(r, allowed) == r && Find(r).Some?
    ensures PlainProtocol(r, Find(r).group, allowed)
  {
    hide Find, Whitelisted, Matches, Canonical, Lower, Once;
    var g := Find(r).group;
    FindIsLongest(r);
    assert g < |r| by {
      FoundInside(r);
    }
    SameLength(r, allowed, g);
    var tail := ":" + r[g + 1..];
    TakeInLeft(Lower(r[..g]), tail, g);
    assert Lower(r[..g]) == r[..g];
  }

  lemma FoundInside(r: string)
    requires Find(r).Some?
    ensures Find(r).group < |r|
  {}

  lemma PlainIsFixpoint(r: string, g: nat, allowed: seq<string>)
    requires PlainProtocol(r, g, allowed) && Find(r).Some? && Find(r).group == g
    ensures Once(r, allowed) == r
  {
    hide *;
    PlainReplacement(r, g, allowed);
    OneMore(r, g);
    ColonHere(r[g..]);
    OnceReplaces(r, allowed);
    ReplacedByParts(r, g, 1, allowed);
    SplitAtColon(r, g);
    Assoc(r[..g], ":", r[g + 1..]);
  }

  lemma ColonHere(s: string)
    requires s != "" && s[0] == ':'
    ensures Colon(s) == 1
  {}

  lemma PlainReplacement(r: string, g: nat, allowed: seq<string>)
    requires PlainProtocol(r, g, allowed)
    ensures g < |r| && r[g] == ':' && Replacement(r[..g], allowed) == r[..g] + ":" && SkipSpaces(r[g + 1..]) == r[g + 1..]
  {
    hide Canonical, Lower, Matches, Whitelisted;
  }

  /** The result of kses_bad_protocol always is fine. */
  lemma ResultIsFine(s: string, allowed: seq<string>)
    ensures ProtocolIsFine(BadProtocol(s, allowed), allowed)
  {
    FixpointIffFine(BadProtocol(s, allowed), allowed);
  }

  // ----- when a second pass changes nothing -----

  predicate PairAt(s: string, i: nat) {
    i + 1 < |s| && s[i] == '\\' && s[i + 1] == '0'
  }

  // No NUL, no soft hyphen, no backslash before a zero.
  predicate FreeOfNulls(s: string) {
    NUL !in s && SOFT_HYPHEN !in s && forall i :: 0 <= i < |s| ==> !PairAt(s, i)
  }

  lemma {:induction false} StripKeepsOrShortens(f: Filter, s: string)
    ensures Strip(f, s) == s <==> forall c :: c in s ==> Keeps(f, c)
  {
    if s != "" {
      StripKeepsOrShortens(f, s[1..]);
      assert s == [s[0]] + s[1..];
      if Strip(f, s) == s {
        assert |Strip(f, s)| == |s|;
        assert Keeps(f, s[0]);
        assert Strip(f, s)[1..] == Strip(f, s[1..]);
      }
    }
  }

  lemma {:induction false} BackslashZeroKeepsOrShortens(s: string)
    ensures StripBackslashZero(s) == s <==> forall i :: 0 <= i < |s| ==> !PairAt(s, i)
    decreases |s|
  {
    if s != "" {
      if PairAt(s, 0) {
        assert |StripBackslashZero(s)| < |s|;
      } else {
        BackslashZeroKeepsOrShortens(s[1..]);
        assert StripBackslashZero(s)[1..] == StripBackslashZero(s[1..]);
        assert s == [s[0]] + s[1..];
        hide StripBackslashZero;
        assert forall i :: 0 <= i < |s| - 1 ==> PairAt(s[1..], i) == PairAt(s, i + 1);
        if forall i :: 0 <= i < |s| - 1 ==> !PairAt(s[1..], i) {
          forall i | 0 <= i < |s|
            ensures !PairAt(s, i)
          {
            assert i > 0 ==> PairAt(s[1..], i - 1) == PairAt(s, i);
          }
        }
      }
    }
  }

  lemma CleanedIffFree(s: string)
    ensures Cleaned(s) == s <==> FreeOfNulls(s)
  {
    hide Strip, StripBackslashZero;
    StripKeepsOrShortens(NotNul, s);
    BackslashZeroKeepsOrShortens(Strip(NotNul, s));
    BackslashZeroKeepsOrShortens(s);
    StripKeepsOrShortens(NotSoftHyphen, NoNull(s));
    StripKeepsOrShortens(NotSoftHyphen, s);
  }

  /** kses_bad_protocol leaves a string alone exactly when its protocol is fine and
      it is free of NULs, soft hyphens and backslash-zero pairs. Its own results
      always have fine protocols, but need not be free: removing a backslash-zero
      pair can leave another one. */
  lemma UnchangedIff(s: string, allowed: seq<string>)
    ensures BadProtocol(s, allowed) == s <==> FreeOfNulls(s) && ProtocolIsFine(s, allowed)
  {
    CleanedIffFree(s);
    FixpointIffFine(s, allowed);
  }

  // One or more backslash-zero pairs, and then a zero.
  predicate ZeroAfterPairs(t: string) {
    PairAt(t, 0) && ((|t| > 2 && t[2] == '0') || ZeroAfterPairs(t[2..]))
  }

  // A backslash that the pairs behind it keep apart from a zero.
  predicate Nested(t: string) {
    exists i :: 0 <= i < |t| && t[i] == '\\' && ZeroAfterPairs(t[i + 1..])
  }

  predicate HasPair(s: string) {
    exists i :: 0 <= i < |s| && PairAt(s, i)
  }

  lemma {:induction false} ZeroIsLeftIff(t: string)
    requires PairAt(t, 0)
    ensures var r := StripBackslashZero(t); (r != "" && r[0] == '0') <==> ZeroAfterPairs(t)
    decreases |t|
  {
    if PairAt(t[2..], 0) {
      ZeroIsLeftIff(t[2..]);
    }
  }

  lemma PairOfCons(c: char, r: string)
    ensures HasPair([c] + r) <==> (c == '\\' && r != "" && r[0] == '0') || HasPair(r)
  {
    var s := [c] + r;
    assert forall i :: 0 <= i < |r| ==> PairAt(r, i) == PairAt(s, i + 1);
    if HasPair(s) {
      var i :| 0 <= i < |s| && PairAt(s, i);
      assert i > 0 ==> PairAt(r, i - 1);
    }
    assert PairAt(s, 0) ==> HasPair(s);
    if HasPair(r) {
      var i :| 0 <= i < |r| && PairAt(r, i);
      assert PairAt(s, i + 1);
    }
  }

  lemma NestedOfTail(t: string, n: nat)
    requires n <= |t| && forall i :: 0 <= i < n ==> !(t[i] == '\\' && ZeroAfterPairs(t[i + 1..]))
    ensures Nested(t) <==> Nested(t[n..])
  {
    hide ZeroAfterPairs;
    if Nested(t) {
      var i :| 0 <= i < |t| && t[i] == '\\' && ZeroAfterPairs(t[i + 1..]);
      DropTwice(t, n, i + 1 - n);
      assert t[n..][i - n] == t[i];
    }
    if Nested(t[n..]) {
      var i :| 0 <= i < |t[n..]| && t[n..][i] == '\\' && ZeroAfterPairs(t[n..][i + 1..]);
      DropTwice(t, n, i + 1);
      assert t[n + i] == '\\' && ZeroAfterPairs(t[n + i + 1..]);
    }
  }

  lemma {:induction false} PairIsLeftIff(t: string)
    ensures HasPair(StripBackslashZero(t)) <==> Nested(t)
    decreases |t|
  {
    if t != "" {
      if PairAt(t, 0) {
        PairIsLeftIff(t[2..]);
        assert !PairAt(t[1..], 0);
        NestedOfTail(t, 2);
      } else {
        var rest := StripBackslashZero(t[1..]);
        PairIsLeftIff(t[1..]);
        PairOfCons(t[0], rest);
        if PairAt(t[1..], 0) {
          ZeroIsLeftIff(t[1..]);
        } else {
          NotAZero(t);
        }
        if !(t[0] == '\\' && ZeroAfterPairs(t[1..])) {
          NestedOfTail(t, 1);
        }
      }
    }
  }

  // Behind a backslash with neither a zero nor a pair, no zero comes first.
  lemma NotAZero(t: string)
    requires t != "" && !PairAt(t, 0) && !PairAt(t[1..], 0)
    ensures var r := StripBackslashZero(t[1..]); !(t[0] == '\\' && r != "" && r[0] == '0')
  {}

  /** kses_no_null leaves a backslash-zero pair of a string exactly when, its NULs
      aside, a backslash stands in front of one or more such pairs and a zero. */
  lemma NullsRemainIff(s: string)
    ensures HasPair(NoNull(s)) <==> Nested(Strip(NotNul, s))
  {
    PairIsLeftIff(Strip(NotNul, s));
  }

  lemma NullsCanRemain()
    ensures var s := ['\\', '\\', '0', '0'];
      NoNull(s) == ['\\', '0'] && HasPair(NoNull(s)) && !FreeOfNulls(NoNull(s))
  {
    var s := ['\\', '\\', '0', '0'];
    assert forall c :: c in s ==> Keeps(NotNul, c);
    assert s[1..] == ['\\', '0', '0'] && s[1..][2..] == ['0'] && ['0'][1..] == "";
    assert StripBackslashZero(['0']) == ['0'];
    assert StripBackslashZero(s) == ['\\'] + StripBackslashZero(s[1..]);
    assert StripBackslashZero(s) == ['\\', '0'];
    assert PairAt(['\\', '0'], 0);
  }
}
