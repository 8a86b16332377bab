/**
 Protocols in disguise (licqweb/kses.php:468-506, 542-556): letters in either case or
 written as numeric entities, with white space, NULs and soft hyphens among them. The
 filter sees the word through all of it.
 */
module KsesDisguise {
  import opened Sequences
  import opened KsesEntities
  import opened KsesProtocol
  import opened KsesHair
  import opened KsesWords
  import opened KsesWritten

  /** One character of a protocol as it is written. */
  datatype Glyph =
    | Typed(c: char)
    | ByNumber(n: nat, zeros: nat)
    | ByHex(n: nat, x: char, digits: string)

  // A number in hex digits, in lower case.
  function Hexadecimal(n: nat): (s: string) {
    if n < 16 then [HexDigit(n)] else Hexadecimal(n / 16) + [HexDigit(n % 16)]
  }

  function HexDigit(d: nat): (c: char)
    requires d < 16
  {
    if d < 10 then ('0' as int + d) as char else ('a' as int + d - 10) as char
  }

  // The byte it stands for.
  function Meant(g: Glyph): (c: char) {
    match g
    case Typed(c) => c
    case ByNumber(n, _) => (n % 0x100) as char
    case ByHex(n, _, _) => (n % 0x100) as char
  }

  /** Letters, digits and white space are typed; anything but an ampersand and a backslash can
      be written by its number, which counts modulo 256. */
  ghost predicate Legible(g: Glyph) {
    && (g.Typed? ==> IsLetter(g.c) || IsDigit(g.c) || IsSpace(g.c))
    && Meant(g) != '&' && Meant(g) != '\\'
    && (g.ByHex? ==> (g.x == 'x' || g.x == 'X') && exists zeros: nat :: Lower(g.digits) == ZeroDigits(zeros) + Hexadecimal(g.n))
  }

  function Glyphs(g: Glyph): (s: string) {
    match g
    case Typed(c) => [c]
    case ByNumber(n, zeros) => "&#" + ((ZeroDigits(zeros) + Decimal(n)) + ";")
    case ByHex(_, x, digits) => ['&', '#', x] + (digits + ";")
  }

  function Disguised(gs: seq<Glyph>): (s: string) {
    if gs == [] then "" else Glyphs(gs[0]) + Disguised(gs[1..])
  }

  /** The word that was written. */
  function Plainly(gs: seq<Glyph>): (s: string) {
    if gs == [] then ""
    else
      var c := Meant(gs[0]);
      (if IsSpace(c) || c == NUL || c == SOFT_HYPHEN then "" else [LowerChar(c)]) + Plainly(gs[1..])
  }

  // ----- numbers -----

  lemma {:induction false} DecimalIsItsValue(n: nat)
    ensures var g := Decimal(n); g != "" && (forall i :: 0 <= i < |g| ==> IsDigit(g[i])) && Value(g) == n
  {
    var g := Decimal(n);
    if n >= 10 {
      DecimalIsItsValue(n / 10);
      assert g[..|g| - 1] == Decimal(n / 10);
    } else {
      assert g[..0] == "";
    }
  }

  lemma {:induction false} ValueOfZeros(zeros: nat, g: string)
    requires forall i :: 0 <= i < |g| ==> IsDigit(g[i])
    ensures var d := ZeroDigits(zeros) + g; (forall i :: 0 <= i < |d| ==> IsDigit(d[i])) && Value(d) == Value(g)
    decreases |g|, zeros
  {
    var d := ZeroDigits(zeros) + g;
    if g == "" {
      assert d == ZeroDigits(zeros);
      if zeros > 0 {
        ValueOfZeros(zeros - 1, g);
        assert ZeroDigits(zeros - 1) + g == ZeroDigits(zeros - 1);
        assert d[..|d| - 1] == ZeroDigits(zeros - 1);
      }
    } else {
      ValueOfZeros(zeros, g[..|g| - 1]);
      assert d[..|d| - 1] == ZeroDigits(zeros) + g[..|g| - 1];
    }
  }

  lemma {:induction false} HexIsItsValue(n: nat)
    ensures var g := Hexadecimal(n);
      g != "" && (forall i :: 0 <= i < |g| ==> IsHex(g[i])) && HexValue(g) == n
  {
    var g := Hexadecimal(n);
    if n >= 16 {
      HexIsItsValue(n / 16);
      assert g[..|g| - 1] == Hexadecimal(n / 16);
      assert 16 * (n / 16) + n % 16 == n;
    } else {
      assert g[..0] == "";
    }
  }

  lemma {:induction false} HexValueOfZeros(zeros: nat, g: string)
    requires forall i :: 0 <= i < |g| ==> IsHex(g[i])
    ensures var d := ZeroDigits(zeros) + g; (forall i :: 0 <= i < |d| ==> IsHex(d[i])) && HexValue(d) == HexValue(g)
    decreases |g|, zeros
  {
    var d := ZeroDigits(zeros) + g;
    if g == "" {
      assert d == ZeroDigits(zeros);
      if zeros > 0 {
        HexValueOfZeros(zeros - 1, g);
        assert ZeroDigits(zeros - 1) + g == ZeroDigits(zeros - 1);
        assert d[..|d| - 1] == ZeroDigits(zeros - 1);
      }
    } else {
      HexValueOfZeros(zeros, g[..|g| - 1]);
      assert d[..|d| - 1] == ZeroDigits(zeros) + g[..|g| - 1];
    }
  }

  lemma {:induction false} HexValueOfLower(h: string)
    requires var l := Lower(h); forall i :: 0 <= i < |l| ==> IsHex(l[i])
    ensures (forall i :: 0 <= i < |h| ==> IsHex(h[i])) && HexValue(h) == HexValue(Lower(h))
  {
    assert forall i :: 0 <= i < |h| ==> Lower(h)[i] == LowerChar(h[i]);
    if h != "" {
      var front := h[..|h| - 1];
      assert Lower(front) == Lower(h)[..|h| - 1];
      HexValueOfLower(front);
    }
  }

  lemma DigitsOfNumber(n: nat, zeros: nat)
    ensures var d := ZeroDigits(zeros) + Decimal(n);
      d != "" && (forall i :: 0 <= i < |d| ==> IsDigit(d[i])) && Value(d) == n
  {
    DecimalIsItsValue(n);
    ValueOfZeros(zeros, Decimal(n));
  }

  lemma DigitsOfHexNumber(g: Glyph)
    requires g.ByHex? && Legible(g)
    ensures g.digits != "" && (forall i :: 0 <= i < |g.digits| ==> IsHex(g.digits[i])) && HexValue(g.digits) == g.n
  {
    var zeros: nat :| Lower(g.digits) == ZeroDigits(zeros) + Hexadecimal(g.n);
    HexIsItsValue(g.n);
    HexValueOfZeros(zeros, Hexadecimal(g.n));
    HexValueOfLower(g.digits);
  }

  // ----- decoding -----

  lemma {:induction false} DecimalsCopy(w: string, t: string)
    requires '&' !in w
    ensures DecodeDecimals(w + t) == w + DecodeDecimals(t)
    decreases |w|
  {
    if w == "" {
      assert w + t == t && "" + DecodeDecimals(t) == DecodeDecimals(t);
    } else {
      assert w[0] in w && (w + t)[0] == w[0];
      DropInLeft(w, t, 1);
      DecimalsCopy(w[1..], t);
      Assoc([w[0]], w[1..], DecodeDecimals(t));
      assert w == [w[0]] + w[1..];
    }
  }

  lemma NumberIsDecoded(n: nat, zeros: nat, t: string)
    ensures DecodeDecimals(Glyphs(ByNumber(n, zeros)) + t) == [Chr(n)] + DecodeDecimals(t)
  {
    var d := ZeroDigits(zeros) + Decimal(n);
    var s := Glyphs(ByNumber(n, zeros)) + t;
    DigitsOfNumber(n, zeros);
    assert (";" + t)[0] == ';';
    RunExactly(Digits, d, ";" + t);
    hide Run, Decimal, ZeroDigits, Value;
    assert s[2..] == d + (";" + t);
    assert s[2..][..|d|] == d && s[|d| + 2] == ';' && s[|d| + 3..] == t;
    assert DecimalEntity(s) == |d| + 3;
  }

  lemma HexInPieces(x: char, d: string, t: string)
    ensures var s := (['&', '#', x] + (d + ";")) + t;
      && s[0] == '&' && s[1] == '#' && s[2] == x && s[1..] == (['#', x] + (d + ";")) + t
      && s[3..] == d + (";" + t) && s[3..][..|d|] == d && |s| == |d| + 4 + |t| && s[|d| + 3] == ';' && s[|d| + 4..] == t
  {}

  lemma HexIsCopied(g: Glyph, t: string)
    requires g.ByHex? && Legible(g)
    ensures DecodeDecimals(Glyphs(g) + t) == Glyphs(g) + DecodeDecimals(t)
  {
    DigitsOfHexNumber(g);
    HexInPieces(g.x, g.digits, t);
    HexLetter(g);
    hide Legible, HexValue, DecodeDecimals;
    var w := ['#', g.x] + (g.digits + ";");
    assert '&' !in w;
    DecimalsCopy(w, t);
    Assoc(['&'], w, DecodeDecimals(t));
    assert Glyphs(g) == ['&'] + w;
    NoDecimalAhead(Glyphs(g) + t);
  }

  lemma NoDecimalAhead(s: string)
    requires |s| >= 3 && s[0] == '&' && !IsDigit(s[2])
    ensures DecodeDecimals(s) == [s[0]] + DecodeDecimals(s[1..])
  {
    assert s[2..][0] == s[2];
    assert DecimalEntity(s) == 0;
  }

  lemma HexIsDecoded(g: Glyph, t: string)
    requires g.ByHex? && Legible(g)
    ensures DecodeHexes(Glyphs(g) + t) == [Chr(g.n)] + DecodeHexes(t)
  {
    DigitsOfHexNumber(g);
    HexInPieces(g.x, g.digits, t);
    HexLetter(g);
    hide Legible, HexValue;
    HexAhead(Glyphs(g) + t, g.digits, t);
  }

  lemma HexAhead(s: string, d: string, t: string)
    requires |s| == |d| + 4 + |t| && s[0] == '&' && s[1] == '#' && (s[2] == 'x' || s[2] == 'X')
    requires d != "" && forall i :: 0 <= i < |d| ==> IsHex(d[i])
    requires s[3..] == d + (";" + t) && s[3..][..|d|] == d && s[|d| + 3] == ';' && s[|d| + 4..] == t
    ensures DecodeHexes(s) == [Chr(HexValue(d))] + DecodeHexes(t)
  {
    assert (";" + t)[0] == ';';
    RunExactly(Hex, d, ";" + t);
    hide Run, HexValue;
    assert HexEntity(s) == |d| + 4;
  }

  lemma HexLetter(g: Glyph)
    requires g.ByHex? && Legible(g)
    ensures g.x == 'X' || g.x == 'x'
  {}

  lemma OneHexCopied(c: char, t: string)
    requires c != '&'
    ensures DecodeHexes([c] + t) == [c] + DecodeHexes(t)
  {
    assert ([c] + t)[1..] == t;
  }

  // The text once the decimal entities are decoded.
  function HalfRead(gs: seq<Glyph>): (s: string) {
    if gs == [] then "" else (if gs[0].ByHex? then Glyphs(gs[0]) else [Meant(gs[0])]) + HalfRead(gs[1..])
  }

  function Bytes(gs: seq<Glyph>): (s: string) {
    if gs == [] then "" else [Meant(gs[0])] + Bytes(gs[1..])
  }

  ghost predicate AllLegible(gs: seq<Glyph>) {
    forall g | g in gs :: Legible(g)
  }

  lemma {:induction false} DecimalsAreRead(gs: seq<Glyph>)
    requires AllLegible(gs)
    ensures DecodeDecimals(Disguised(gs)) == HalfRead(gs)
  {
    hide Glyphs, DecodeDecimals;
    if gs == [] {
      NothingToDecode();
    } else {
      var g, t := gs[0], Disguised(gs[1..]);
      assert g in gs;
      DecimalsAreRead(gs[1..]);
      match g {
        case Typed(c) =>
          OneTyped(c);
          DecimalsCopy([c], t);
        case ByNumber(n, zeros) => NumberIsDecoded(n, zeros, t);
        case ByHex(_, _, _) => HexIsCopied(g, t);
      }
    }
  }

  lemma OneTyped(c: char)
    ensures Glyphs(Typed(c)) == [c]
  {}

  lemma NothingToDecode()
    ensures DecodeDecimals("") == "" && DecodeHexes("") == ""
  {}

  lemma {:induction false} HexesAreRead(gs: seq<Glyph>)
    requires AllLegible(gs)
    ensures DecodeHexes(HalfRead(gs)) == Bytes(gs)
  {
    hide Glyphs, DecodeHexes;
    if gs == [] {
      NothingToDecode();
    } else {
      var g, t := gs[0], HalfRead(gs[1..]);
      assert g in gs && Legible(g);
      HexesAreRead(gs[1..]);
      if g.ByHex? {
        HexIsDecoded(g, t);
      } else {
        OneHexCopied(Meant(g), t);
      }
    }
  }

  // ----- what is dropped -----

  // The word in its own case.
  function Letters(gs: seq<Glyph>): (s: string) {
    if gs == [] then ""
    else
      var c := Meant(gs[0]);
      (if IsSpace(c) || c == NUL || c == SOFT_HYPHEN then "" else [c]) + Letters(gs[1..])
  }

  lemma StripOne(f: Filter, c: char, t: string)
    ensures Strip(f, [c] + t) == (if Keeps(f, c) then [c] else "") + Strip(f, t)
  {
    assert ([c] + t)[1..] == t;
  }

  lemma {:induction false} NoiseIsDropped(gs: seq<Glyph>)
    requires AllLegible(gs)
    ensures Strip(NotSoftHyphen, Strip(NotNul, Strip(NotSpace, Bytes(gs)))) == Letters(gs)
    ensures '\\' !in Strip(NotNul, Strip(NotSpace, Bytes(gs)))
  {
    if gs != [] {
      hide Strip, Legible;
      var c, t := Meant(gs[0]), Bytes(gs[1..]);
      assert gs[0] in gs;
      LegibleIsNoBackslash(gs[0]);
      NoiseIsDropped(gs[1..]);
      StripOne(NotSpace, c, t);
      StripOne(NotNul, c, Strip(NotSpace, t));
      StripOne(NotSoftHyphen, c, Strip(NotNul, Strip(NotSpace, t)));
      assert "" + Strip(NotSpace, t) == Strip(NotSpace, t);
      assert "" + Strip(NotNul, Strip(NotSpace, t)) == Strip(NotNul, Strip(NotSpace, t));
    } else {
      EmptyStrip();
    }
  }

  lemma LegibleIsNoBackslash(g: Glyph)
    requires Legible(g)
    ensures Meant(g) != '\\'
  {}

  lemma EmptyStrip()
    ensures forall f :: Strip(f, "") == ""
  {}

  lemma {:induction false} NoPairs(s: string)
    requires '\\' !in s
    ensures StripBackslashZero(s) == s
  {
    BackslashZeroKeepsOrShortens(s);
  }

  lemma {:induction false} LoweredLetters(gs: seq<Glyph>)
    ensures Lower(Letters(gs)) == Plainly(gs)
  {
    if gs == [] {
      assert Lower("") == "";
    } else {
      var c, t := Meant(gs[0]), Letters(gs[1..]);
      LoweredLetters(gs[1..]);
      assert Lower([c] + t) == [LowerChar(c)] + Lower(t);
      assert "" + t == t && "" + Lower(t) == Lower(t);
    }
  }

  /** However a word is written, kses_bad_protocol_once2 compares the word itself. */
  lemma DisguiseIsSeenThrough(gs: seq<Glyph>)
    requires AllLegible(gs)
    ensures Canonical(Disguised(gs)) == Plainly(gs)
  {
    DecimalsAreRead(gs);
    HexesAreRead(gs);
    NoiseIsDropped(gs);
    NoPairs(Strip(NotNul, Strip(NotSpace, Bytes(gs))));
    LoweredLetters(gs);
    hide DecodeDecimals, DecodeHexes, Strip, StripBackslashZero, Lower;
  }

  // ----- finding it -----

  lemma GlyphIsItem(g: Glyph)
    requires Legible(g)
    ensures IsItem(Glyphs(g))
  {
    match g {
      case Typed(_) =>
      case ByNumber(n, zeros) =>
        DigitsOfNumber(n, zeros);
        hide Decimal, Value, ZeroDigits, Legible;
        EntityItem("&#", ZeroDigits(zeros) + Decimal(n));
      case ByHex(_, x, digits) =>
        DigitsOfHexNumber(g);
        HexLetter(g);
        hide HexValue, Legible;
        EntityItem(['&', '#', x], digits);
    }
  }

  lemma EntityItem(front: string, d: string)
    requires front != "" && front[0] == '&' && ';' !in front && ';' !in d
    ensures IsItem(front + (d + ";"))
  {
    var w := front + (d + ";");
    assert forall i :: 0 <= i < |w| - 1 ==> w[i] == (if i < |front| then front[i] else d[i - |front|]);
    assert w[|w| - 1] == ';';
  }

  lemma ItemIsSkipped(w: string, t: string)
    requires IsItem(w)
    ensures Find(w + t) == match Find(t)
      case Some(group, colon) => Some(|w| + group, colon)
      case None => if Colon(w + t) > 0 then Some(0, Colon(w + t)) else None
  {
    TakeInLeft(w, t, |w|);
    DropInLeft(w, t, |w|);
    assert w[..|w|] == w && w[|w|..] + t == t;
    ItemIsUnique(w + t, |w|);
    hide Item, IsItem, Colon;
  }

  lemma {:induction false} DisguiseIsSkipped(gs: seq<Glyph>, t: string)
    requires AllLegible(gs) && Find(t).Some?
    ensures Find(Disguised(gs) + t) == Some(|Disguised(gs)| + Find(t).group, Find(t).colon)
  {
    hide Glyphs, Find, Legible, IsItem;
    if gs == [] {
      assert "" + t == t;
    } else {
      assert gs[0] in gs;
      GlyphIsItem(gs[0]);
      DisguiseIsSkipped(gs[1..], t);
      Assoc(Glyphs(gs[0]), Disguised(gs[1..]), t);
      ItemIsSkipped(Glyphs(gs[0]), Disguised(gs[1..]) + t);
    }
  }

  /** The spellings of a colon the filter knows. */
  predicate ColonWord(w: string) {
    w == ":" || w == "&#58;" || w == "&#x3a;" || w == "&#x3A;" || w == "&#X3a;" || w == "&#X3A;"
  }

  lemma ColonWordIff(w: string)
    ensures IsColon(w) <==> ColonWord(w)
  {
    if IsColon(w) {
      assert w == if |w| == 1 then [w[0]] else if |w| == 5 then [w[0], w[1], w[2], w[3], w[4]]
        else [w[0], w[1], w[2], w[3], w[4], w[5]];
    }
  }

  // The text behind a colon and white space cannot go on with a protocol.
  predicate Stops(rest: string) {
    rest != "" ==> !IsLetter(rest[0]) && !IsDigit(rest[0]) && !IsSpace(rest[0]) && rest[0] != '&' && rest[0] != ':'
  }

  lemma {:induction false} NothingBehind(blank: string, rest: string)
    requires Blank(blank) && Stops(rest)
    ensures Find(blank + rest).None?
    decreases |blank|
  {
    hide IsItem, Items;
    if blank == "" {
      assert blank + rest == rest;
      NoColonAhead(rest);
      assert Item(rest) == 0;
    } else {
      assert blank == [blank[0]] + blank[1..];
      Assoc([blank[0]], blank[1..], rest);
      NothingBehind(blank[1..], rest);
      BlankIsItem(blank[0]);
      NoColonAhead(blank + rest);
      hide Find;
      ItemIsSkipped([blank[0]], blank[1..] + rest);
    }
  }

  lemma BlankIsItem(c: char)
    requires IsSpace(c)
    ensures IsItem([c])
  {}

  lemma NoColonAhead(s: string)
    requires s != "" ==> s[0] != ':' && s[0] != '&'
    ensures Colon(s) == 0
  {
    assert |s| >= 1 ==> s[..1][0] == s[0];
    assert |s| >= 5 ==> s[..5][0] == s[0];
    assert |s| >= 6 ==> s[..6][0] == s[0];
  }

  lemma ColonIsFound(colon: string, blank: string, rest: string)
    requires ColonWord(colon) && Blank(blank) && (rest != "" ==> !IsSpace(rest[0])) && (colon == ":" || Stops(rest))
    ensures Find(colon + (blank + rest)) == Some(0, |colon|)
  {
    var s := colon + (blank + rest);
    ColonWordIff(colon);
    assert s[..|colon|] == colon;
    ColonIsUnique(s, |colon|);
    hide IsColon, Colon, IsItem;
    if colon == ":" {
      assert s[0] == ':';
      assert Item(s) == 0;
    } else {
      EntityIsItem(colon);
      NothingBehind(blank, rest);
      hide Find, Item;
      ItemIsSkipped(colon, blank + rest);
    }
  }

  lemma EntityIsItem(colon: string)
    requires ColonWord(colon) && colon != ":"
    ensures IsItem(colon)
  {}

  lemma {:induction false} SpacesSkipped(blank: string, rest: string)
    requires Blank(blank) && (rest != "" ==> !IsSpace(rest[0]))
    ensures SkipSpaces(blank + rest) == rest
    decreases |blank|
  {
    if blank == "" {
      assert blank + rest == rest;
    } else {
      DropInLeft(blank, rest, 1);
      SpacesSkipped(blank[1..], rest);
    }
  }

  lemma ReplacementIs(w: string, p: string, protocols: seq<string>)
    requires Canonical(w) == p
    ensures Replacement(w, protocols) == if exists i :: 0 <= i < |protocols| && Lower(protocols[i]) == p then p + ":" else ""
  {
    hide Canonical, Lower;
  }

  /** A protocol in front of a string, however it and its colon are written, is replaced by the
      plain word and a colon if the word is whitelisted, and removed otherwise. */
  lemma ProtocolIsReplaced(gs: seq<Glyph>, colon: string, blank: string, rest: string, protocols: seq<string>)
    requires AllLegible(gs) && ColonWord(colon) && Blank(blank)
    requires (rest != "" ==> !IsSpace(rest[0])) && (colon == ":" || Stops(rest))
    ensures Once(Disguised(gs) + (colon + (blank + rest)), protocols)
      == (if exists i :: 0 <= i < |protocols| && Lower(protocols[i]) == Plainly(gs) then Plainly(gs) + ":" else "") + rest
  {
    var w, t := Disguised(gs), colon + (blank + rest);
    ColonIsFound(colon, blank, rest);
    DisguiseIsSkipped(gs, t);
    DisguiseIsSeenThrough(gs);
    SpacesSkipped(blank, rest);
    hide *;
    FrontIsReplaced(w, colon, blank + rest, protocols);
    ReplacementIs(w, Plainly(gs), protocols);
  }

  lemma FrontIsReplaced(w: string, colon: string, t: string, protocols: seq<string>)
    requires Find(w + (colon + t)) == Some(|w|, |colon|)
    ensures Once(w + (colon + t), protocols) == Replacement(w, protocols) + SkipSpaces(t)
  {
    hide *;
    var s := w + (colon + t);
    InFront(w, colon, t);
    OnceReplaces(s, protocols);
    ReplacedByParts(s, |w|, |colon|, protocols);
  }

  lemma InFront(w: string, colon: string, t: string)
    ensures var s := w + (colon + t); s[..|w|] == w && s[|w| + |colon|..] == t && |s| == |w| + |colon| + |t|
  {}

  // ----- the whole loop -----

  lemma {:induction false} RestIsFree(w: string, t: string)
    requires FreeOfNulls(w + t)
    ensures FreeOfNulls(t)
  {
    var s := w + t;
    assert forall i :: 0 <= i < |t| ==> t[i] == s[|w| + i];
    forall i | 0 <= i < |t|
      ensures !PairAt(t, i)
    {
      assert !PairAt(s, |w| + i);
    }
  }

  /** A forbidden protocol is removed, and kses_bad_protocol goes on with what was behind it. */
  lemma ForbiddenProtocolIsRemoved(gs: seq<Glyph>, colon: string, blank: string, rest: string, protocols: seq<string>)
    requires AllLegible(gs) && ColonWord(colon) && Blank(blank)
    requires (rest != "" ==> !IsSpace(rest[0])) && (colon == ":" || Stops(rest))
    requires FreeOfNulls(Disguised(gs) + (colon + (blank + rest)))
    requires forall i :: 0 <= i < |protocols| ==> Lower(protocols[i]) != Plainly(gs)
    ensures BadProtocol(Disguised(gs) + (colon + (blank + rest)), protocols) == BadProtocol(rest, protocols)
  {
    var w := Disguised(gs);
    var s := w + (colon + (blank + rest));
    ProtocolIsReplaced(gs, colon, blank, rest, protocols);
    ColonIsSomething(colon);
    hide *;
    assert Once(s, protocols) == rest by {
      assert "" + rest == rest;
    }
    Behind(w, colon, blank, rest);
    RestIsFree((w + colon) + blank, rest);
    UntilOnce(s, rest, protocols);
  }

  lemma Behind(w: string, colon: string, blank: string, rest: string)
    ensures w + (colon + (blank + rest)) == ((w + colon) + blank) + rest
  {
    Assoc(w, colon, blank + rest);
    Assoc(w + colon, blank, rest);
  }

  lemma UntilOnce(s: string, rest: string, protocols: seq<string>)
    requires Once(s, protocols) == rest && |rest| < |s| && FreeOfNulls(s) && FreeOfNulls(rest)
    ensures BadProtocol(s, protocols) == BadProtocol(rest, protocols)
  {
    CleanedIffFree(s);
    CleanedIffFree(rest);
    hide Once, Cleaned, FreeOfNulls;
  }

  lemma ColonIsSomething(colon: string)
    requires ColonWord(colon)
    ensures colon != ""
  {}

  lemma {:induction false} PlainlyIsPlain(gs: seq<Glyph>)
    requires AllLegible(gs)
    ensures var p := Plainly(gs);
      forall c | c in p :: c != '&' && c != '\\' && !IsSpace(c) && c != NUL && c != SOFT_HYPHEN && LowerChar(c) == c
  {
    if gs != [] {
      assert gs[0] in gs;
      LegibleIsPlain(gs[0]);
      hide Legible;
      PlainlyIsPlain(gs[1..]);
    }
  }

  lemma LegibleIsPlain(g: Glyph)
    requires Legible(g)
    ensures Meant(g) != '&' && Meant(g) != '\\'
  {}

  // The letters and digits of a word, typed.
  function AsTyped(p: string): (gs: seq<Glyph>) {
    if p == "" then [] else [Typed(p[0])] + AsTyped(p[1..])
  }

  predicate IsWord(p: string) {
    forall c | c in p :: IsLetter(c) || IsDigit(c)
  }

  lemma {:induction false} TypedIsItself(p: string)
    requires IsWord(p)
    ensures AllLegible(AsTyped(p)) && Disguised(AsTyped(p)) == p && Plainly(AsTyped(p)) == Lower(p)
  {
    if p == "" {
      assert Lower("") == "";
    } else {
      TypedIsItself(p[1..]);
      assert p[0] in p && Legible(Typed(p[0]));
      assert ([Typed(p[0])] + AsTyped(p[1..]))[1..] == AsTyped(p[1..]);
      assert Lower(p) == [LowerChar(p[0])] + Lower(p[1..]);
    }
  }

  /** A whitelisted protocol of letters and digits is written out plainly in front of the rest, and that
      is all. */
  lemma AllowedProtocolIsKept(gs: seq<Glyph>, blank: string, rest: string, protocols: seq<string>)
    requires AllLegible(gs) && Blank(blank) && (rest != "" ==> !IsSpace(rest[0])) && IsWord(Plainly(gs))
    requires FreeOfNulls(Disguised(gs) + (":" + (blank + rest)))
    requires exists i :: 0 <= i < |protocols| && Lower(protocols[i]) == Plainly(gs)
    ensures BadProtocol(Disguised(gs) + (":" + (blank + rest)), protocols) == Plainly(gs) + (":" + rest)
  {
    var s, p := Disguised(gs) + (":" + (blank + rest)), Plainly(gs);
    var r := p + (":" + rest);
    ProtocolIsReplaced(gs, ":", blank, rest, protocols);
    PlainlyIsPlain(gs);
    TypedIsItself(p);
    assert Lower(p) == p by {
      assert forall i :: 0 <= i < |p| ==> p[i] in p;
    }
    hide Lower, Disguised, Plainly, AllLegible, Blank, Once, FreeOfNulls, IsWord, AsTyped;
    Assoc(p, ":", rest);
    assert Once(s, protocols) == r;
    assert Blank("") by {
      NothingIsBlank();
    }
    assert "" + rest == rest;
    ProtocolIsReplaced(AsTyped(p), ":", "", rest, protocols);
    assert Once(r, protocols) == r;
    CleanedIffFree(s);
    hide Cleaned;
    UntilTwice(s, r, protocols);
  }

  lemma NothingIsBlank()
    ensures Blank("")
  {}

  lemma UntilTwice(s: string, r: string, protocols: seq<string>)
    requires Once(s, protocols) == r && Once(r, protocols) == r
    ensures Until(s, protocols) == r
  {
    hide Once;
  }
}
