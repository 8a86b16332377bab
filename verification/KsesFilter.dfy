/**
 The filter as a whole (licqweb/kses.php:33-50): normalised input, split into tags.
 What the entity rewrites establish survives the tag filter: also in attribute
 values that lost a protocol, NULs and brackets, every ampersand starts an allowed entity.
 */
module KsesFilter {
  import opened Sequences
  import opened KsesEntities
  import opened KsesProtocol
  import opened KsesHair
  import opened KsesTags
  import KsesMarkup
  import KsesWords

  /** Every ampersand of s starts an entity kses allows. */
  predicate Sound(s: string) {
    forall i :: 0 <= i < |s| && s[i] == '&' ==> Allowed(s[i + 1..])
  }

  // ----- how far an entity reaches -----

  predicate EntityChar(c: char) {
    In(Alnum, c) || c == '#' || c == ';'
  }

  predicate LeavesAlone(rule: Rule, t: string) {
    Match(rule, t) > 0 && Body(rule, t) == t[..Match(rule, t)]
  }

  lemma AllowedByRule(t: string)
    ensures Allowed(t) <==> LeavesAlone(Names, t) || LeavesAlone(Decimals, t) || LeavesAlone(Hexes, t)
  {
    hide NameMatch, DecimalMatch, HexMatch, KeptDigits, KeptHex, Guard;
  }

  lemma RunIs(k: Class, t: string, n: nat)
    requires n < |t| && !In(k, t[n]) && forall i :: 0 <= i < n ==> In(k, t[i])
    ensures Run(k, t) == n
  {}

  // A run that ends inside the first n characters is the same whatever follows them.
  lemma RunIsDecided(k: Class, t: string, n: nat, x: string)
    requires Run(k, t) < n <= |t|
    ensures Run(k, t[..n] + x) == Run(k, t)
  {
    hide Run, In;
    assert forall i :: 0 <= i < n ==> (t[..n] + x)[i] == t[i];
    RunIs(k, t[..n] + x, Run(k, t));
  }

  lemma NameIsDecided(t: string, x: string)
    requires NameMatch(t) > 0
    ensures var n := NameMatch(t); NameMatch(t[..n] + x) == n && forall i :: 0 <= i < n ==> EntityChar(t[i])
  {
    RunIsDecided(Alnum, t, Run(Alnum, t) + 1, x);
    hide Run;
  }

  lemma DecimalIsDecided(t: string, x: string)
    requires DecimalMatch(t) > 0
    ensures var n := DecimalMatch(t);
      && DecimalMatch(t[..n] + x) == n && KeptDigits(t[..n] + x) == KeptDigits(t)
      && forall i :: 0 <= i < n ==> EntityChar(t[i])
  {
    hide Run, CanonicalDecimal;
    var n, d := DecimalMatch(t), t[1..];
    ZerosAmong(Digits, d);
    RunIsDecided(Digits, d, n - 1, x);
    RunIsDecided(Zeros, d, n - 1, x);
    assert (t[..n] + x)[1..] == d[..n - 1] + x;
    var (run, kept) := DecimalDigits(d);
    assert (d[..n - 1] + x)[run - kept..run] == d[run - kept..run];
    assert forall i :: 1 <= i < n ==> t[i] == d[i - 1];
  }

  lemma HexIsDecided(t: string, x: string)
    requires HexMatch(t) > 0
    ensures var n := HexMatch(t);
      && HexMatch(t[..n] + x) == n && KeptHex(t[..n] + x) == KeptHex(t) && (t[..n] + x)[..2] == t[..2]
      && forall i :: 0 <= i < n ==> EntityChar(t[i])
  {
    hide Run, CanonicalHex;
    var n, d := HexMatch(t), t[2..];
    ZerosAmong(Hex, d);
    RunIsDecided(Hex, d, n - 2, x);
    RunIsDecided(Zeros, d, n - 2, x);
    assert (t[..n] + x)[2..] == d[..n - 2] + x;
    var (run, kept) := HexDigits(d);
    assert (d[..n - 2] + x)[run - kept..run] == d[run - kept..run];
    assert forall i :: 2 <= i < n ==> t[i] == d[i - 2];
  }

  lemma MatchIsDecided(rule: Rule, t: string, x: string)
    requires Match(rule, t) > 0
    ensures var n := Match(rule, t);
      && Match(rule, t[..n] + x) == n && Body(rule, t[..n] + x) == Body(rule, t)
      && forall i :: 0 <= i < n ==> EntityChar(t[i])
  {
    hide NameMatch, DecimalMatch, HexMatch, KeptDigits, KeptHex, Guard, EntityChar;
    var n := Match(rule, t);
    assert (t[..n] + x)[..n] == t[..n];
    match rule {
      case Names => NameIsDecided(t, x);
      case Decimals => DecimalIsDecided(t, x);
      case Hexes => HexIsDecided(t, x);
    }
  }

  function Extent(t: string): (n: nat)
    requires Allowed(t)
    ensures n <= |t|
  {
    if LeavesAlone(Names, t) then Match(Names, t) else if LeavesAlone(Decimals, t) then Match(Decimals, t) else Match(Hexes, t)
  }

  /** An allowed entity consists of its own characters, and stays one whatever follows. */
  lemma EntityIsDecided(t: string, x: string)
    requires Allowed(t)
    ensures var n := Extent(t);
      n > 0 && Allowed(t[..n] + x) && forall i :: 0 <= i < n ==> EntityChar(t[i])
  {
    hide Allowed, Match, Body, EntityChar;
    AllowedByRule(t);
    var rule := if LeavesAlone(Names, t) then Names else if LeavesAlone(Decimals, t) then Decimals else Hexes;
    var n := Extent(t);
    MatchIsDecided(rule, t, x);
    assert (t[..n] + x)[..n] == t[..n];
    assert LeavesAlone(rule, t[..n] + x);
    AllowedByRule(t[..n] + x);
  }

  // ----- cutting and joining -----

  lemma SuffixIsSound(s: string, n: nat)
    requires Sound(s) && n <= |s|
    ensures Sound(s[n..])
  {
    hide Allowed;
    forall i | 0 <= i < |s[n..]| && s[n..][i] == '&'
      ensures Allowed(s[n..][i + 1..])
    {
      DropTwice(s, n, i + 1);
    }
  }

  lemma ConcatIsSound(a: string, b: string)
    requires Sound(a) && Sound(b)
    ensures Sound(a + b)
  {
    hide Allowed, EntityChar, Extent;
    var s := a + b;
    forall i | 0 <= i < |s| && s[i] == '&'
      ensures Allowed(s[i + 1..])
    {
      if i < |a| {
        DropInLeft(a, b, i + 1);
        LongerIsAllowed(a[i + 1..], b);
      } else {
        assert s[i + 1..] == b[i - |a| + 1..];
      }
    }
  }

  lemma LongerIsAllowed(t: string, x: string)
    requires Allowed(t)
    ensures Allowed(t + x)
  {
    hide Allowed, EntityChar, Extent;
    var n := Extent(t);
    EntityIsDecided(t, t[n..] + x);
    assert t[..n] + (t[n..] + x) == t + x;
  }

  // No entity reaches across k.
  predicate Between(s: string, k: nat) {
    k <= |s| && (k == |s| || k == 0 || !EntityChar(s[k]) || (!EntityChar(s[k - 1]) && s[k - 1] != '&'))
  }

  lemma ShorterIsAllowed(t: string, k: nat)
    requires Allowed(t) && k <= |t|
    requires k == |t| || !EntityChar(t[k]) || (k > 0 && !EntityChar(t[k - 1]))
    ensures Allowed(t[..k])
  {
    hide Allowed, Extent, EntityChar;
    var n := Extent(t);
    EntityIsDecided(t, "");
    assert n <= k;
    EntityIsDecided(t, t[n..k]);
    assert t[..n] + t[n..k] == t[..k];
  }

  lemma PrefixIsSound(s: string, k: nat)
    requires Sound(s) && Between(s, k)
    ensures Sound(s[..k])
  {
    hide Allowed, EntityChar;
    forall i | 0 <= i < k && s[..k][i] == '&'
      ensures Allowed(s[..k][i + 1..])
    {
      var t := s[i + 1..];
      assert k < |s| ==> t[k - i - 1] == s[k];
      assert k - i - 1 > 0 ==> t[k - i - 2] == s[k - 1];
      ShorterIsAllowed(t, k - i - 1);
      assert s[..k][i + 1..] == t[..k - i - 1];
    }
  }

  lemma NoAmpersandIsSound(s: string)
    requires '&' !in s
    ensures Sound(s)
  {}

  // Behind an ampersand that is kept, an entity that is kept.
  lemma AmpersandInFront(t: string, r: string)
    requires Allowed(t) && Sound(r) && Extent(t) <= |r| && r[..Extent(t)] == t[..Extent(t)]
    ensures Sound("&" + r)
  {
    hide Allowed, Extent;
    var n := Extent(t);
    EntityIsDecided(t, r[n..]);
    assert t[..n] + r[n..] == r;
    ConsIsSound('&', r);
  }

  lemma ConsIsSound(c: char, r: string)
    requires Sound(r) && (c == '&' ==> Allowed(r))
    ensures Sound([c] + r)
  {
    hide Allowed;
    var s := [c] + r;
    forall i | 0 <= i < |s| && s[i] == '&'
      ensures Allowed(s[i + 1..])
    {
      assert s[i + 1..] == r[i..];
      assert i > 0 ==> r[i - 1] == '&' && Allowed(r[i - 1 + 1..]);
      assert i == 0 ==> r[0..] == r;
    }
  }

  // ----- removing characters -----

  lemma {:induction false} StripCopies(f: Filter, t: string, n: nat)
    requires n <= |t| && f != NotSpace && forall i :: 0 <= i < n ==> EntityChar(t[i])
    ensures Strip(f, t) == t[..n] + Strip(f, t[n..])
    decreases n
  {
    if n == 0 {
      assert t[0..] == t && t[..0] == "";
    } else {
      StripCopies(f, t[1..], n - 1);
      CopyOne(t, n, Strip(f, t[n..]));
    }
  }

  lemma CopyOne(t: string, n: nat, r: string)
    requires 0 < n <= |t|
    ensures [t[0]] + (t[1..][..n - 1] + r) == t[..n] + r && t[1..][n - 1..] == t[n..]
  {}

  lemma {:induction false} StripIsSound(f: Filter, s: string)
    requires Sound(s) && f != NotSpace
    ensures Sound(Strip(f, s))
  {
    hide Allowed, Extent, EntityChar;
    if s != "" {
      SuffixIsSound(s, 1);
      StripIsSound(f, s[1..]);
      if s[0] == '&' {
        EntityIsDecided(s[1..], "");
        StripCopies(f, s[1..], Extent(s[1..]));
        AmpersandInFront(s[1..], Strip(f, s[1..]));
      } else {
        ConsIsSound(s[0], Strip(f, s[1..]));
        assert "" + Strip(f, s[1..]) == Strip(f, s[1..]);
      }
    }
  }

  lemma {:induction false} PairsCopies(t: string, n: nat)
    requires n <= |t| && forall i :: 0 <= i < n ==> EntityChar(t[i])
    ensures StripBackslashZero(t) == t[..n] + StripBackslashZero(t[n..])
    decreases n
  {
    if n == 0 {
      assert t[0..] == t && t[..0] == "";
    } else {
      PairsCopies(t[1..], n - 1);
      CopyOne(t, n, StripBackslashZero(t[n..]));
    }
  }

  lemma {:induction false} PairsIsSound(s: string)
    requires Sound(s)
    ensures Sound(StripBackslashZero(s))
    decreases |s|
  {
    hide Allowed, Extent, EntityChar;
    if s != "" {
      if PairAt(s, 0) {
        SuffixIsSound(s, 2);
        PairsIsSound(s[2..]);
      } else {
        SuffixIsSound(s, 1);
        PairsIsSound(s[1..]);
        if s[0] == '&' {
          EntityIsDecided(s[1..], "");
          PairsCopies(s[1..], Extent(s[1..]));
          AmpersandInFront(s[1..], StripBackslashZero(s[1..]));
        } else {
          ConsIsSound(s[0], StripBackslashZero(s[1..]));
        }
      }
    }
  }

  lemma {:induction false} AnglesCopies(t: string, n: nat)
    requires n <= |t| && forall i :: 0 <= i < n ==> EntityChar(t[i])
    ensures StripAngles(t) == t[..n] + StripAngles(t[n..])
    decreases n
  {
    if n == 0 {
      assert t[0..] == t && t[..0] == "";
    } else {
      AnglesCopies(t[1..], n - 1);
      CopyOne(t, n, StripAngles(t[n..]));
    }
  }

  lemma {:induction false} AnglesIsSound(s: string)
    requires Sound(s)
    ensures Sound(StripAngles(s))
  {
    hide Allowed, Extent, EntityChar;
    if s != "" {
      SuffixIsSound(s, 1);
      AnglesIsSound(s[1..]);
      if s[0] == '&' {
        EntityIsDecided(s[1..], "");
        AnglesCopies(s[1..], Extent(s[1..]));
        AmpersandInFront(s[1..], StripAngles(s[1..]));
      } else {
        ConsIsSound(s[0], StripAngles(s[1..]));
        assert "" + StripAngles(s[1..]) == StripAngles(s[1..]);
      }
    }
  }

  // ----- protocols -----

  /** The white list itself brings no other ampersands in. */
  predicate SoundProtocols(protocols: seq<string>) {
    forall i :: 0 <= i < |protocols| ==> Sound(Lower(protocols[i]) + ":")
  }

  lemma ReplacementIsSound(w: string, protocols: seq<string>)
    requires SoundProtocols(protocols)
    ensures Sound(Replacement(w, protocols))
  {
    hide Sound, Canonical, Lower;
    EmptyIsSound();
  }

  lemma OnceIsSound(s: string, protocols: seq<string>)
    requires Sound(s) && SoundProtocols(protocols)
    ensures Sound(Once(s, protocols))
  {
    if Find(s).None? {
      OnceKeeps(s, protocols);
    } else {
      hide *;
      var g, c := Find(s).group, Find(s).colon;
      var rest := s[g + c..];
      var tail := SkipSpaces(rest);
      SuffixIsSound(s, g + c);
      SuffixIsSound(rest, |rest| - |tail|);
      ReplacementIsSound(s[..g], protocols);
      OnceReplaces(s, protocols);
      ReplacedByParts(s, g, c, protocols);
      ConcatIsSound(Replacement(s[..g], protocols), tail);
    }
  }

  lemma {:induction false} UntilIsSound(s: string, protocols: seq<string>)
    requires Sound(s) && SoundProtocols(protocols)
    ensures Sound(Until(s, protocols))
    decreases |s|, Uppers(s)
  {
    hide Once, Sound;
    OnceShrinks(s, protocols);
    OnceIsSound(s, protocols);
    if Once(s, protocols) != s {
      UntilIsSound(Once(s, protocols), protocols);
    }
  }

  lemma BadProtocolIsSound(s: string, protocols: seq<string>)
    requires Sound(s) && SoundProtocols(protocols)
    ensures Sound(BadProtocol(s, protocols))
  {
    hide Sound, Strip, StripBackslashZero, Until;
    StripIsSound(NotNul, s);
    PairsIsSound(Strip(NotNul, s));
    StripIsSound(NotSoftHyphen, NoNull(s));
    UntilIsSound(Cleaned(s), protocols);
  }

  // ----- attributes -----

  lemma TextIsSound(s: string)
    requires Sound(s) && ValueAt(s).Literal?
    ensures Sound(ValueAt(s).text)
  {
    hide Sound, Closed;
    var v := ValueAt(s);
    if Quoted('"', s) > 0 || Quoted('\'', s) > 0 {
      SuffixIsSound(s, 1);
      var e := IndexOf(v.quote, s[1..]);
      PrefixIsSound(s[1..], e);
      assert s[1..1 + e] == s[1..][..e];
    } else {
      PrefixIsSound(s, Span(Bare, s));
    }
  }

  lemma WholeIsSound(name: string, value: string, q: char)
    requires IsName(name) && Sound(value) && (q == '"' || q == '\'')
    ensures Sound(Valueless(name).whole) && Sound(Valued(name, value, q).whole)
  {
    NoAmpersandIsSound(name);
    NoAmpersandIsSound(name + "=" + [q]);
    NoAmpersandIsSound([q]);
    hide Sound;
    ConcatIsSound(name + "=" + [q], value);
    ConcatIsSound(name + "=" + [q] + value, [q]);
  }

  lemma {:induction false} ParseIsSound(s: string, mode: Mode, name: string, protocols: seq<string>)
    requires Sound(s) && SoundProtocols(protocols) && (mode != WantName ==> IsName(name))
    ensures forall a | a in Parse(s, mode, name, protocols) :: Sound(a.whole)
    decreases |s|
  {
    hide Sound, SoundProtocols, ValueAt, ErrorLength, Equals, BadProtocol, Span, IsName, Valued, Valueless;
    EmptyIsSound();
    if mode != WantName {
      WholeIsSound(name, "", '"');
    }
    if s != "" {
      SuffixIsSound(s, ErrorLength(s));
      SuffixIsSound(s, Equals(s));
      SuffixIsSound(s, Span(Space, s));
      SuffixIsSound(s, Span(NameChar, s));
      match mode {
        case WantName =>
          var n := Span(NameChar, s);
          if n > 0 {
            NameOfSpan(s);
            ParseIsSound(s[n..], AfterName, s[..n], protocols);
          } else {
            ParseIsSound(s[ErrorLength(s)..], WantName, name, protocols);
          }
        case AfterName =>
          if Equals(s) > 0 {
            ParseIsSound(s[Equals(s)..], WantValue, name, protocols);
          } else if Span(Space, s) > 0 {
            ParseIsSound(s[Span(Space, s)..], WantName, name, protocols);
          } else {
            ParseIsSound(s[ErrorLength(s)..], WantName, name, protocols);
          }
        case WantValue =>
          var v := ValueAt(s);
          if v.Literal? {
            TextIsSound(s);
            BadProtocolIsSound(v.text, protocols);
            WholeIsSound(name, BadProtocol(v.text, protocols), v.quote);
            SuffixIsSound(s, v.used);
            ParseIsSound(s[v.used..], WantName, name, protocols);
          } else {
            ParseIsSound(s[ErrorLength(s)..], WantName, name, protocols);
          }
      }
    }
  }

  lemma EmptyIsSound()
    ensures Sound("")
  {}

  lemma NameOfSpan(s: string)
    requires Span(NameChar, s) > 0
    ensures IsName(s[..Span(NameChar, s)])
  {}

  lemma {:induction false} MarkupIsSound(attrs: seq<Attr>)
    requires forall a | a in attrs :: Sound(a.whole)
    ensures Sound(Markup(attrs))
  {
    hide Sound;
    if attrs == [] {
      EmptyIsSound();
    } else {
      MarkupIsSound(attrs[1..]);
      SpaceInFront(attrs[0].whole);
      ConcatIsSound(" " + attrs[0].whole, Markup(attrs[1..]));
    }
  }

  lemma SpaceInFront(s: string)
    requires Sound(s)
    ensures Sound(" " + s)
  {
    ConsIsSound(' ', s);
  }

  // ----- tags -----

  lemma {:induction false} EscapeCopies(t: string, n: nat)
    requires n <= |t| && forall i :: 0 <= i < n ==> EntityChar(t[i])
    ensures Escape(t) == t[..n] + Escape(t[n..])
    decreases n
  {
    if n == 0 {
      assert t[0..] == t && t[..0] == "";
    } else {
      EscapeCopies(t[1..], n - 1);
      CopyOne(t, n, Escape(t[n..]));
    }
  }

  lemma BracketsAreSound()
    ensures Sound("&lt;") && Sound("&gt;")
  {
    assert "lt;"[1..] == "t;" && "t;"[1..] == ";";
    assert "gt;"[1..] == "t;";
    assert Run(Alnum, ";") == 0 && Run(Alnum, "t;") == 1;
    assert Run(Alnum, "lt;") == 2 && Run(Alnum, "gt;") == 2;
    assert NameMatch("lt;") == 3 && NameMatch("gt;") == 3;
    assert "&lt;"[1..] == "lt;" && "&gt;"[1..] == "gt;";
    assert forall i :: 0 < i < 4 ==> "&lt;"[i] != '&' && "&gt;"[i] != '&';
  }

  lemma {:induction false} EscapeIsSound(s: string)
    requires Sound(s)
    ensures Sound(Escape(s))
  {
    hide Allowed, Extent, EntityChar;
    if s != "" {
      SuffixIsSound(s, 1);
      EscapeIsSound(s[1..]);
      if s[0] == '&' {
        EntityIsDecided(s[1..], "");
        EscapeCopies(s[1..], Extent(s[1..]));
        AmpersandInFront(s[1..], Escape(s[1..]));
      } else if s[0] == '<' || s[0] == '>' {
        BracketsAreSound();
        ConcatIsSound(if s[0] == '<' then "&lt;" else "&gt;", Escape(s[1..]));
      } else {
        ConsIsSound(s[0], Escape(s[1..]));
      }
    }
  }

  lemma RestIsSound(s: string, closing: bool)
    requires Sound(s) && NameAndRest(s, closing).Parts?
    ensures Sound(NameAndRest(s, closing).attrlist)
  {
    hide Sound;
    var n := Run(Alnum, s);
    var e := IndexOf('>', s[n..]);
    SuffixIsSound(s, n);
    PrefixIsSound(s[n..], e);
    assert s[n..n + e] == s[n..][..e];
  }

  lemma AttrListIsSound(s: string)
    requires s != "" && Sound(s) && TagParts(s).Parts?
    ensures Sound(TagParts(s).attrlist)
  {
    hide Sound, NameAndRest, Span;
    var b := s[1..][Span(Space, s[1..])..];
    SuffixIsSound(s, 1);
    SuffixIsSound(s[1..], Span(Space, s[1..]));
    if b != "" && b[0] == '/' {
      SuffixIsSound(b, 1);
      SuffixIsSound(b[1..], Span(Space, b[1..]));
      RestIsSound(b[1..][Span(Space, b[1..])..], true);
    } else {
      RestIsSound(b, false);
    }
  }

  lemma FrontIsSound(t: Token)
    requires t.Tag? && forall i :: 0 <= i < |t.element| ==> In(Alnum, t.element[i])
    ensures Sound("<" + (if t.closing then "/" else "")) && Sound(t.element)
  {}

  lemma TailIsSound(attrs: seq<Attr>, slash: bool)
    requires forall a | a in attrs :: Sound(a.whole)
    ensures Sound(Tail(attrs, slash))
  {
    NoAmpersandIsSound(if slash then " /" else "");
    hide Sound, StripAngles, Markup;
    MarkupIsSound(attrs);
    AnglesIsSound(Markup(attrs));
    ConcatIsSound(StripAngles(Markup(attrs)), if slash then " /" else "");
  }

  lemma ShowInParts(t: Token)
    requires t.Tag?
    ensures Show(t) == "<" + (if t.closing then "/" else "") + (t.element + Tail(t.attrs, t.slash)) + ">"
  {
    hide Tail;
  }

  lemma ShowIsSound(t: Token)
    requires t.Tag? && forall a | a in t.attrs :: Sound(a.whole)
    requires forall i :: 0 <= i < |t.element| ==> In(Alnum, t.element[i])
    ensures Sound(Show(t))
  {
    NoAmpersandIsSound(">");
    FrontIsSound(t);
    hide *;
    TailIsSound(t.attrs, t.slash);
    ShowInParts(t);
    var front, tail := "<" + (if t.closing then "/" else ""), Tail(t.attrs, t.slash);
    ConcatIsSound(t.element, tail);
    ConcatIsSound(front, t.element + tail);
    ConcatIsSound(front + (t.element + tail), ">");
  }

  lemma Split2IsSound(s: string, allowed: AllowList, protocols: seq<string>)
    requires s != "" && Sound(s) && SoundProtocols(protocols)
    ensures Sound(Show(Split2(s, allowed, protocols)))
  {
    hide Sound, SoundProtocols, Parse, Escape, AllowedOf, Show, TagParts, Lower;
    EmptyIsSound();
    BracketsAreSound();
    EscapeIsSound(s);
    var t := Split2(s, allowed, protocols);
    if s[0] == '<' && TagParts(s).Parts? {
      AttrListIsSound(s);
      ParseIsSound(TagParts(s).attrlist, WantName, "", protocols);
    }
    if t.Tag? {
      ShowIsSound(t);
    } else {
      TextIsShown(t);
    }
  }

  lemma TextIsShown(t: Token)
    requires t.Text?
    ensures Show(t) == t.text
  {}

  lemma {:induction false} SplitCopies(t: string, n: nat, allowed: AllowList, protocols: seq<string>)
    requires n <= |t| && forall i :: 0 <= i < n ==> EntityChar(t[i])
    ensures SplitTags(t, allowed, protocols) == t[..n] + SplitTags(t[n..], allowed, protocols)
    decreases n
  {
    if n == 0 {
      assert t[0..] == t && t[..0] == "";
    } else {
      assert EntityChar(t[0]);
      SplitCopies(t[1..], n - 1, allowed, protocols);
      CopyOne(t, n, SplitTags(t[n..], allowed, protocols));
    }
  }

  /** The tag filter keeps every ampersand in its entity. */
  lemma {:induction false} SplitTagsIsSound(s: string, allowed: AllowList, protocols: seq<string>)
    requires Sound(s) && SoundProtocols(protocols)
    ensures Sound(SplitTags(s, allowed, protocols))
    decreases |s|
  {
    hide Allowed, Extent, EntityChar, Split2, Show, SoundProtocols;
    if s != "" {
      var n := TagLength(s);
      if n > 0 {
        TagEndsBetween(s);
        PrefixIsSound(s, n);
        SuffixIsSound(s, n);
        Split2IsSound(s[..n], allowed, protocols);
        SplitTagsIsSound(s[n..], allowed, protocols);
        ConcatIsSound(Show(Split2(s[..n], allowed, protocols)), SplitTags(s[n..], allowed, protocols));
      } else {
        var r := SplitTags(s[1..], allowed, protocols);
        SuffixIsSound(s, 1);
        SplitTagsIsSound(s[1..], allowed, protocols);
        if s[0] == '&' {
          EntityIsDecided(s[1..], "");
          SplitCopies(s[1..], Extent(s[1..]), allowed, protocols);
          AmpersandInFront(s[1..], r);
        } else {
          ConsIsSound(s[0], r);
        }
      }
    }
  }

  lemma TagEndsBetween(s: string)
    requires TagLength(s) > 0
    ensures Between(s, TagLength(s))
  {}

  // ----- the whole filter -----

  lemma {:induction false} JoinIsSound(ts: seq<string>)
    requires AllPlain(ts) && forall t | t in ts :: Allowed(t)
    ensures Sound(Join(ts))
  {
    hide Allowed;
    if ts != [] {
      JoinIsSound(ts[1..]);
      assert ts[0] in ts;
      LongerIsAllowed(ts[0], Join(ts[1..]));
      NoAmpersandIsSound(ts[0]);
      ConcatIsSound(ts[0], Join(ts[1..]));
      ConsIsSound('&', ts[0] + Join(ts[1..]));
      Assoc("&", ts[0], Join(ts[1..]));
    }
  }

  lemma NormalizeIsSound(s: string)
    ensures Sound(Normalize(s))
  {
    hide Normalize, Allowed, Sound;
    EveryAmpersandIsAllowed(s);
    var ts := Split(Normalize(s));
    SplitJoins(Normalize(s));
    assert Plain(ts[0]) by {
      assert ts[0] in ts;
    }
    JoinIsSound(ts[1..]);
    NoAmpersandIsSound(ts[0]);
    ConcatIsSound(ts[0], Join(ts[1..]));
  }

  /** For every input, allow-list and white list: in what the filter puts out, the only
      tags are closed ones of allowed elements, and every ampersand, in text and in
      attribute values, starts an allowed entity. */
  lemma FilteredIsFine(s: string, allowed: AllowList, protocols: seq<string>)
    requires SoundProtocols(protocols)
    ensures var r := SplitTags(Normalize(s), allowed, protocols);
      OnlyAllowedTags(r, allowed) && Sound(r)
  {
    hide Normalize, Sound;
    NormalizeIsSound(s);
    SplitTagsIsSound(Normalize(s), allowed, protocols);
    OutputHasOnlyAllowedTags(Normalize(s), allowed, protocols);
  }

  /** The whole filter leaves clean markup alone whose ampersands are all left alone: for the tags, what
      KsesMarkup calls clean, for the ampersands, what KsesWords calls kept. */
  lemma CleanIsLeftAlone(ps: seq<KsesMarkup.Piece>, allowed: AllowList, protocols: seq<string>)
    requires KsesMarkup.NoBrackets(protocols)
    requires forall p | p in ps :: KsesMarkup.ProperPiece(p) && KsesMarkup.Clean(p, allowed, protocols)
    requires forall t :: t in Split(KsesMarkup.AllSource(ps))[1..] ==> KsesWords.Kept(t)
    ensures SplitTags(Normalize(KsesMarkup.AllSource(ps)), allowed, protocols) == KsesMarkup.AllSource(ps)
  {
    KsesWords.UnchangedIffKept(KsesMarkup.AllSource(ps));
    KsesMarkup.CleanMarkupIsKept(ps, allowed, protocols);
  }
}
