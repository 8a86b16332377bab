/**
 kses_normalize_entities (licqweb/kses.php:509-539): disarm every ampersand,
 then three ordered rewrites re-arm the allowed entities. Each regular
 expression is an explicit scanner; a rewrite scans left to right and does not
 look again at what it has put out. Strings are strings of bytes.
 */
module KsesEntities {
  import opened Sequences

  predicate IsDigit(c: char) { '0' <= c <= '9' }

  predicate IsLetter(c: char) { 'A' <= c <= 'Z' || 'a' <= c <= 'z' }

  predicate IsHex(c: char) { IsDigit(c) || 'A' <= c <= 'F' || 'a' <= c <= 'f' }

  // ----- runs of characters -----

  datatype Class = Alnum | Digits | Hex | Zeros

  predicate In(k: Class, c: char) {
    match k
    case Alnum => IsDigit(c) || IsLetter(c)
    case Digits => IsDigit(c)
    case Hex => IsHex(c)
    case Zeros => c == '0'
  }

  function Run(k: Class, t: string): (n: nat)
    ensures n <= |t| && (forall i :: 0 <= i < n ==> In(k, t[i])) && (n < |t| ==> !In(k, t[n]))
  {
    if t == "" || !In(k, t[0]) then 0 else 1 + Run(k, t[1..])
  }

  // ----- the three patterns, on the text after "&amp;" -----

  datatype Rule = Names | Decimals | Hexes

  // [A-Za-z][A-Za-z0-9]{0,19};
  function NameMatch(t: string): (n: nat)
    ensures n <= |t|
  {
    var run := Run(Alnum, t);
    if 1 <= run <= 20 && IsLetter(t[0]) && run < |t| && t[run] == ';' then run + 1 else 0
  }

  // Digits kept of a run of n that starts with z zeros: #0*([0-9]{1,5});
  function DecimalsKept(n: nat, z: nat): (k: nat)
    requires z <= n
    ensures k <= n
  {
    if n == 0 || n - z > 5 then 0 else if n == z then 1 else n - z
  }

  // #([Xx])0*(([0-9A-Fa-f]{2}){1,2});
  function HexesKept(n: nat, z: nat): (k: nat)
    requires z <= n
    ensures k <= n
  {
    if n - z <= 2 && n >= 2 then 2 else if 2 < n - z <= 4 && n >= 4 then 4 else 0
  }

  lemma ZerosAmong(k: Class, t: string)
    requires k == Digits || k == Hex
    ensures Run(Zeros, t) <= Run(k, t)
  {
    if Run(Zeros, t) > Run(k, t) {
      assert In(Zeros, t[Run(k, t)]);
    }
  }

  function DecimalDigits(t: string): (r: (nat, nat))
    ensures r.1 <= r.0 <= |t|
  {
    ZerosAmong(Digits, t);
    (Run(Digits, t), DecimalsKept(Run(Digits, t), Run(Zeros, t)))
  }

  function HexDigits(t: string): (r: (nat, nat))
    ensures r.1 <= r.0 <= |t|
  {
    ZerosAmong(Hex, t);
    (Run(Hex, t), HexesKept(Run(Hex, t), Run(Zeros, t)))
  }

  function DecimalMatch(t: string): (n: nat)
    ensures n <= |t|
  {
    if t == "" || t[0] != '#' then 0
    else
      var (run, kept) := DecimalDigits(t[1..]);
      if kept > 0 && 1 + run < |t| && t[1 + run] == ';' then run + 2 else 0
  }

  function HexMatch(t: string): (n: nat)
    ensures n <= |t|
  {
    if |t| < 2 || t[0] != '#' || (t[1] != 'X' && t[1] != 'x') then 0
    else
      var (run, kept) := HexDigits(t[2..]);
      if kept > 0 && 2 + run < |t| && t[2 + run] == ';' then run + 3 else 0
  }

  function Match(rule: Rule, t: string): (n: nat)
    ensures n <= |t|
  {
    match rule
    case Names => NameMatch(t)
    case Decimals => DecimalMatch(t)
    case Hexes => HexMatch(t)
  }

  function Value(g: string): (n: nat)
    requires forall i :: 0 <= i < |g| ==> IsDigit(g[i])
  {
    if g == "" then 0 else
      assert IsDigit(g[|g| - 1]);
      10 * Value(g[..|g| - 1]) + (g[|g| - 1] as int - '0' as int)
  }

  // kses_normalize_entities2 leaves a number of more than 16 bits disarmed.
  function Guard(g: string): (r: string)
    requires forall i :: 0 <= i < |g| ==> IsDigit(g[i])
  {
    if Value(g) > 65535 then "amp;" else ""
  }

  // Digits as a decimal rewrite leaves them: one to five, without needless zeros.
  predicate CanonicalDecimal(g: string) {
    1 <= |g| <= 5 && (forall i :: 0 <= i < |g| ==> IsDigit(g[i])) && (|g| > 1 ==> g[0] != '0')
  }

  predicate CanonicalHex(h: string) {
    (|h| == 2 || (|h| == 4 && !(h[0] == '0' && h[1] == '0'))) && forall i :: 0 <= i < |h| ==> IsHex(h[i])
  }

  lemma InsideRun(k: Class, d: string, from: nat)
    requires from <= Run(k, d)
    ensures forall i :: 0 <= i < Run(k, d) - from ==> In(k, d[from..Run(k, d)][i])
  {}

  // \1 of the decimal rewrite
  function KeptDigits(t: string): (g: string)
    requires DecimalMatch(t) > 0
    ensures CanonicalDecimal(g)
  {
    var (run, kept) := DecimalDigits(t[1..]);
    DigitsAreCanonical(t[1..]);
    t[1..][run - kept..run]
  }

  lemma DigitsAreCanonical(d: string)
    ensures var (run, kept) := DecimalDigits(d); kept > 0 ==> CanonicalDecimal(d[run - kept..run])
  {
    hide Run;
    ZerosAmong(Digits, d);
    var run, z := Run(Digits, d), Run(Zeros, d);
    var kept := DecimalsKept(run, z);
    InsideRun(Digits, d, run - kept);
    assert kept > 1 ==> d[run - kept..run][0] == d[z];
  }

  // \2 of the hex rewrite
  function KeptHex(t: string): (h: string)
    requires HexMatch(t) > 0
    ensures CanonicalHex(h)
  {
    var (run, kept) := HexDigits(t[2..]);
    HexIsCanonical(t[2..]);
    t[2..][run - kept..run]
  }

  lemma HexIsCanonical(d: string)
    ensures var (run, kept) := HexDigits(d); kept > 0 ==> CanonicalHex(d[run - kept..run])
  {
    hide Run;
    ZerosAmong(Hex, d);
    var run, z := Run(Hex, d), Run(Zeros, d);
    var kept := HexesKept(run, z);
    InsideRun(Hex, d, run - kept);
    if kept == 4 {
      assert z < run && !In(Zeros, d[z]) && run - kept <= z <= run - kept + 1;
      assert d[run - kept..run][z - (run - kept)] == d[z];
    }
  }

  // What stands behind the ampersand in place of "amp;" and the match.
  function Body(rule: Rule, t: string): (b: string)
    requires Match(rule, t) > 0
  {
    match rule
    case Names => t[..NameMatch(t)]
    case Decimals => Guard(KeptDigits(t)) + ("#" + KeptDigits(t) + ";")
    case Hexes => t[..2] + KeptHex(t) + ";"
  }

  const AMP := "&amp;"

  // ----- the function -----

  function Disarm(s: string): (r: string) {
    if s == "" then "" else (if s[0] == '&' then AMP else [s[0]]) + Disarm(s[1..])
  }

  function Rewrite(rule: Rule, s: string): (r: string)
    decreases |s|
  {
    if s == "" then ""
    else if AMP <= s && Match(rule, s[5..]) > 0 then
      "&" + Body(rule, s[5..]) + Rewrite(rule, s[5 + Match(rule, s[5..])..])
    else [s[0]] + Rewrite(rule, s[1..])
  }

  function Normalize(s: string): (r: string) {
    Rewrite(Hexes, Rewrite(Decimals, Rewrite(Names, Disarm(s))))
  }

  // ----- the text between ampersands -----

  predicate Plain(t: string) {
    '&' !in t
  }

  predicate AllPlain(ts: seq<string>) {
    forall t | t in ts :: Plain(t)
  }

  function Split(s: string): (ts: seq<string>)
    ensures ts != [] && AllPlain(ts)
  {
    if s == "" then [""]
    else
      var ts := Split(s[1..]);
      assert Plain(ts[0]);
      if s[0] == '&' then [""] + ts else [[s[0]] + ts[0]] + ts[1..]
  }

  // Pieces of text, each behind an ampersand.
  function Join(ts: seq<string>): (s: string) {
    if ts == [] then "" else "&" + ts[0] + Join(ts[1..])
  }

  lemma {:induction false} SplitJoins(s: string)
    ensures s == Split(s)[0] + Join(Split(s)[1..])
  {
    if s != "" {
      SplitJoins(s[1..]);
      var ts := Split(s[1..]);
      assert s == [s[0]] + s[1..];
      if s[0] == '&' {
        assert Split(s)[1..] == ts;
        Assoc("&", ts[0], Join(ts[1..]));
        assert "" + Join(ts) == Join(ts);
      } else {
        assert Split(s)[1..] == ts[1..];
        Assoc([s[0]], ts[0], Join(ts[1..]));
      }
    }
  }

  lemma {:induction false} JoinSplits(head: string, ts: seq<string>)
    requires Plain(head) && AllPlain(ts)
    ensures Split(head + Join(ts)) == [head] + ts
    decreases |ts|, |head|
  {
    var s := head + Join(ts);
    if head == "" {
      assert s == Join(ts);
      if ts != [] {
        assert s == "&" + (ts[0] + Join(ts[1..]));
        assert s[1..] == ts[0] + Join(ts[1..]);
        assert ts[0] in ts && AllPlain(ts[1..]);
        JoinSplits(ts[0], ts[1..]);
        assert [ts[0]] + ts[1..] == ts;
      }
    } else {
      assert s[1..] == head[1..] + Join(ts);
      assert Plain(head[1..]);
      JoinSplits(head[1..], ts);
      assert s[0] == head[0] != '&';
      assert [head[0]] + head[1..] == head;
    }
  }

  // ----- a rewrite acts on each piece by itself -----

  predicate Armless(t: string) {
    |t| >= 4 && t[..4] == "amp;"
  }

  function Piece(rule: Rule, t: string): (r: string) {
    if Armless(t) && Match(rule, t[4..]) > 0 then Body(rule, t[4..]) + t[4..][Match(rule, t[4..])..] else t
  }

  function Pieces(rule: Rule, ts: seq<string>): (r: seq<string>) {
    if ts == [] then [] else [Piece(rule, ts[0])] + Pieces(rule, ts[1..])
  }

  // What follows a piece: nothing, or the next ampersand.
  predicate Boundary(rest: string) {
    rest == "" || rest[0] == '&'
  }

  lemma RunStopsAtBoundary(k: Class, t: string, rest: string)
    requires Boundary(rest)
    ensures Run(k, t + rest) == Run(k, t)
  {
    assert forall i :: 0 <= i < |t| ==> (t + rest)[i] == t[i];
    assert rest != "" ==> (t + rest)[|t|] == '&';
  }

  lemma DecimalIsLocal(t: string, rest: string)
    requires Boundary(rest)
    ensures DecimalMatch(t + rest) == DecimalMatch(t)
    ensures DecimalMatch(t) > 0 ==> KeptDigits(t + rest) == KeptDigits(t)
  {
    hide Run;
    if t != "" {
      DropInLeft(t, rest, 1);
      RunStopsAtBoundary(Digits, t[1..], rest);
      RunStopsAtBoundary(Zeros, t[1..], rest);
      var (run, kept) := DecimalDigits(t[1..]);
      assert DecimalDigits((t + rest)[1..]) == (run, kept);
      hide Run, DecimalDigits, CanonicalDecimal;
      assert (t[1..] + rest)[run - kept..run] == t[1..][run - kept..run];
    }
  }

  lemma HexIsLocal(t: string, rest: string)
    requires Boundary(rest)
    ensures HexMatch(t + rest) == HexMatch(t)
    ensures HexMatch(t) > 0 ==> KeptHex(t + rest) == KeptHex(t) && (t + rest)[..2] == t[..2]
  {
    hide Run;
    if |t| >= 2 {
      DropInLeft(t, rest, 2);
      TakeInLeft(t, rest, 2);
      RunStopsAtBoundary(Hex, t[2..], rest);
      RunStopsAtBoundary(Zeros, t[2..], rest);
      var (run, kept) := HexDigits(t[2..]);
      assert HexDigits((t + rest)[2..]) == (run, kept);
      hide Run, HexDigits, CanonicalHex;
      assert (t[2..] + rest)[run - kept..run] == t[2..][run - kept..run];
    }
  }

  lemma NameIsLocal(t: string, rest: string)
    requires Boundary(rest)
    ensures NameMatch(t + rest) == NameMatch(t)
    ensures NameMatch(t) > 0 ==> Body(Names, t + rest) == Body(Names, t)
  {
    hide Run;
    RunStopsAtBoundary(Alnum, t, rest);
    hide Run;
    TakeInLeft(t, rest, NameMatch(t));
  }

  lemma MatchIsLocal(rule: Rule, t: string, rest: string)
    requires Boundary(rest)
    ensures Match(rule, t + rest) == Match(rule, t)
    ensures Match(rule, t) > 0 ==> Body(rule, t + rest) == Body(rule, t)
  {
    hide NameMatch, DecimalMatch, HexMatch, KeptDigits, KeptHex;
    match rule {
      case Names => NameIsLocal(t, rest);
      case Decimals => DecimalIsLocal(t, rest);
      case Hexes => HexIsLocal(t, rest);
    }
  }

  lemma {:induction false} PlainIsCopied(rule: Rule, t: string, rest: string)
    requires Plain(t)
    ensures Rewrite(rule, t + rest) == t + Rewrite(rule, rest)
    decreases |t|
  {
    if t == "" {
      assert "" + rest == rest;
      assert "" + Rewrite(rule, rest) == Rewrite(rule, rest);
    } else {
      var s := t + rest;
      assert s[0] == t[0] && t[0] in t;
      DropInLeft(t, rest, 1);
      PlainIsCopied(rule, t[1..], rest);
      Assoc([t[0]], t[1..], Rewrite(rule, rest));
      assert [t[0]] + t[1..] == t;
    }
  }

  lemma ArmlessAhead(t: string, rest: string)
    requires Boundary(rest)
    ensures AMP <= "&" + t + rest <==> Armless(t)
    ensures Armless(t) ==> ("&" + t + rest)[5..] == t[4..] + rest
  {
    var s := "&" + t + rest;
    assert |t| >= 4 ==> s[1..5] == t[..4];
    assert |t| < 4 && rest != "" ==> s[|t| + 1] == '&';
    assert s[..1] == "&" && AMP[1..] == "amp;";
    assert |s| >= 5 ==> s[..5] == s[..1] + s[1..5];
  }

  lemma PieceIsRewritten(rule: Rule, t: string, rest: string)
    requires Plain(t) && Boundary(rest)
    ensures Rewrite(rule, "&" + t + rest) == "&" + Piece(rule, t) + Rewrite(rule, rest)
  {
    hide Match, Body, Armless;
    var s := "&" + t + rest;
    Assoc("&", t, rest);
    ArmlessAhead(t, rest);
    if Armless(t) && Match(rule, t[4..]) > 0 {
      var u := t[4..];
      MatchIsLocal(rule, u, rest);
      var n := Match(rule, u);
      DropTwice(s, 5, n);
      DropInLeft(u, rest, n);
      assert Rewrite(rule, s) == "&" + Body(rule, u) + Rewrite(rule, u[n..] + rest);
      assert forall c :: c in u[n..] ==> c in t;
      PlainIsCopied(rule, u[n..], rest);
      Assoc("&" + Body(rule, u), u[n..], Rewrite(rule, rest));
      Assoc("&", Body(rule, u), u[n..]);
    } else {
      if Armless(t) {
        MatchIsLocal(rule, t[4..], rest);
      }
      assert s[1..] == t + rest;
      assert Rewrite(rule, s) == "&" + Rewrite(rule, t + rest);
      PlainIsCopied(rule, t, rest);
      Assoc("&", t, Rewrite(rule, rest));
    }
  }

  lemma {:induction false} RewriteByPieces(rule: Rule, ts: seq<string>)
    requires AllPlain(ts)
    ensures Rewrite(rule, Join(ts)) == Join(Pieces(rule, ts))
  {
    if ts != [] {
      hide Match, Body, Piece;
      assert ts[0] in ts && AllPlain(ts[1..]);
      PieceIsRewritten(rule, ts[0], Join(ts[1..]));
      RewriteByPieces(rule, ts[1..]);
      assert Pieces(rule, ts)[1..] == Pieces(rule, ts[1..]);
    }
  }

  lemma BodyIsPlain(rule: Rule, t: string)
    requires Plain(t) && Match(rule, t) > 0
    ensures Plain(Body(rule, t))
  {}

  lemma PieceIsPlain(rule: Rule, t: string)
    requires Plain(t)
    ensures Plain(Piece(rule, t))
  {
    if Armless(t) && Match(rule, t[4..]) > 0 {
      assert forall c :: c in t[4..] ==> c in t;
      BodyIsPlain(rule, t[4..]);
      hide Body, Match;
    }
  }

  lemma {:induction false} PiecesArePlain(rule: Rule, ts: seq<string>)
    requires AllPlain(ts)
    ensures AllPlain(Pieces(rule, ts)) && |Pieces(rule, ts)| == |ts|
  {
    if ts != [] {
      hide Piece;
      assert ts[0] in ts && AllPlain(ts[1..]);
      PieceIsPlain(rule, ts[0]);
      PiecesArePlain(rule, ts[1..]);
    }
  }

  // ----- all three rewrites on one piece -----

  function Armed(t: string): (r: string) {
    Piece(Hexes, Piece(Decimals, Piece(Names, "amp;" + t)))
  }

  function AllArmed(ts: seq<string>): (r: seq<string>) {
    if ts == [] then [] else [Armed(ts[0])] + AllArmed(ts[1..])
  }

  function AllDisarmed(ts: seq<string>): (r: seq<string>) {
    if ts == [] then [] else ["amp;" + ts[0]] + AllDisarmed(ts[1..])
  }

  lemma {:induction false} DisarmPlain(head: string, rest: string)
    requires Plain(head)
    ensures Disarm(head + rest) == head + Disarm(rest)
  {
    if head == "" {
      assert "" + rest == rest && "" + Disarm(rest) == Disarm(rest);
    } else {
      assert (head + rest)[0] == head[0] && head[0] in head;
      DropInLeft(head, rest, 1);
      DisarmPlain(head[1..], rest);
      Assoc([head[0]], head[1..], Disarm(rest));
      assert [head[0]] + head[1..] == head;
    }
  }

  lemma {:induction false} DisarmByPieces(ts: seq<string>)
    requires AllPlain(ts)
    ensures Disarm(Join(ts)) == Join(AllDisarmed(ts)) && AllPlain(AllDisarmed(ts))
  {
    if ts != [] {
      assert ts[0] in ts && AllPlain(ts[1..]);
      DisarmByPieces(ts[1..]);
      DisarmPlain(ts[0], Join(ts[1..]));
      Assoc("&", ts[0], Join(ts[1..]));
      assert ("&" + (ts[0] + Join(ts[1..])))[1..] == ts[0] + Join(ts[1..]);
      assert AllDisarmed(ts)[1..] == AllDisarmed(ts[1..]);
      Assoc(AMP, ts[0], Disarm(Join(ts[1..])));
      assert AMP == "&" + "amp;";
      Assoc("&", "amp;", ts[0]);
    }
  }

  lemma {:induction false} ThreeRewrites(ts: seq<string>)
    ensures Pieces(Hexes, Pieces(Decimals, Pieces(Names, AllDisarmed(ts)))) == AllArmed(ts)
  {
    if ts != [] {
      hide Piece;
      var d := AllDisarmed(ts);
      assert d[1..] == AllDisarmed(ts[1..]);
      var n := Pieces(Names, d);
      assert n[1..] == Pieces(Names, d[1..]);
      var m := Pieces(Decimals, n);
      assert m[1..] == Pieces(Decimals, n[1..]);
      ThreeRewrites(ts[1..]);
    }
  }

  /** Normalising acts on the text behind each ampersand by itself. */
  lemma NormalizeByPieces(head: string, ts: seq<string>)
    requires Plain(head) && AllPlain(ts)
    ensures Normalize(head + Join(ts)) == head + Join(AllArmed(ts)) && AllPlain(AllArmed(ts))
  {
    hide Rewrite, Disarm, Pieces;
    DisarmPlain(head, Join(ts));
    DisarmByPieces(ts);
    var d := AllDisarmed(ts);
    var n := Pieces(Names, d);
    var m := Pieces(Decimals, n);
    PiecesArePlain(Names, d);
    PiecesArePlain(Decimals, n);
    PiecesArePlain(Hexes, m);
    PlainIsCopied(Names, head, Join(d));
    RewriteByPieces(Names, d);
    PlainIsCopied(Decimals, head, Join(n));
    RewriteByPieces(Decimals, n);
    PlainIsCopied(Hexes, head, Join(m));
    RewriteByPieces(Hexes, m);
    ThreeRewrites(ts);
  }

  // A piece whose "amp;" was not taken for a name: re-armed as a number, or left.
  function Numbered(c: string): (r: string) {
    if DecimalMatch(c) > 0 then Body(Decimals, c) + c[DecimalMatch(c)..]
    else if HexMatch(c) > 0 then Body(Hexes, c) + c[HexMatch(c)..]
    else "amp;" + c
  }

  lemma AmpIsAName(t: string)
    requires Armless(t)
    ensures NameMatch(t) == 4 && DecimalMatch(t) == 0 && HexMatch(t) == 0
  {
    assert t[0] == t[..4][0] && t[1] == t[..4][1] && t[2] == t[..4][2] && t[3] == t[..4][3];
    assert t[1..][0] == t[1] && t[1..][1..][0] == t[2] && t[1..][1..][1..][0] == t[3];
    assert Run(Alnum, t[1..][1..][1..]) == 0;
    assert Run(Alnum, t[1..][1..]) == 1;
    assert Run(Alnum, t[1..]) == 2;
    assert Run(Alnum, t) == 3;
  }

  // Armless(t) is how a piece with its own "amp;" in front looks.
  lemma PieceOfArmless(rule: Rule, c: string)
    ensures Armless("amp;" + c) && ("amp;" + c)[4..] == c
    ensures Piece(rule, "amp;" + c) == if Match(rule, c) > 0 then Body(rule, c) + c[Match(rule, c)..] else "amp;" + c
  {
    assert ("amp;" + c)[..4] == "amp;";
  }

  lemma DecimalBodyIsNotHex(c: string)
    requires DecimalMatch(c) > 0
    ensures var r := Body(Decimals, c) + c[DecimalMatch(c)..]; Piece(Hexes, r) == r
  {
    hide DecimalMatch, KeptDigits, Guard, HexDigits;
    var g, rest := KeptDigits(c), c[DecimalMatch(c)..];
    var r := Body(Decimals, c) + rest;
    assert Guard(g) == "" || Guard(g) == "amp;" by {
      GuardCases(g);
    }
    if Guard(g) == "" {
      assert r[0] == '#';
    } else {
      assert r[4..][0] == r[4] == '#' && r[4..][1] == r[5] == g[0];
    }
  }

  lemma GuardCases(g: string)
    requires forall i :: 0 <= i < |g| ==> IsDigit(g[i])
    ensures Guard(g) == "" || Guard(g) == "amp;"
  {}

  lemma ArmedCases(t: string)
    ensures Armed(t) == if Armless(t) then Numbered(t[4..]) else if NameMatch(t) > 0 then t else Numbered(t)
  {
    hide NameMatch, DecimalMatch, HexMatch, Body;
    var c := if Armless(t) then t[4..] else t;
    PieceOfArmless(Names, t);
    PieceOfArmless(Decimals, c);
    PieceOfArmless(Hexes, c);
    if NameMatch(t) > 0 {
      NameIsKept(t);
    }
    if Armless(t) {
      AmpIsAName(t);
      assert t == "amp;" + c;
    }
    if DecimalMatch(c) > 0 {
      DecimalBodyIsNotHex(c);
    }
  }

  lemma NameIsKept(t: string)
    requires NameMatch(t) > 0
    ensures Body(Names, t) + t[NameMatch(t)..] == t
  {}

  // ----- what has been re-armed stays as it is -----

  lemma RunExactly(k: Class, g: string, rest: string)
    requires (forall i :: 0 <= i < |g| ==> In(k, g[i])) && (rest == "" || !In(k, rest[0]))
    ensures Run(k, g + rest) == |g|
  {
    assert forall i :: 0 <= i < |g| ==> (g + rest)[i] == g[i];
    assert rest != "" ==> (g + rest)[|g|] == rest[0];
  }

  /** A matched decimal entity is re-armed with canonical digits. */
  lemma NumberedDecimal(c: string) returns (g: string, rest: string)
    requires DecimalMatch(c) > 0
    ensures CanonicalDecimal(g)
    ensures Numbered(c) == Guard(g) + ("#" + g + ";" + rest)
  {
    hide DecimalMatch, Guard, KeptDigits;
    g, rest := KeptDigits(c), c[DecimalMatch(c)..];
    Assoc(Guard(g), "#" + g + ";", rest);
  }

  lemma NumberedHex(c: string) returns (x: char, h: string, rest: string)
    requires DecimalMatch(c) == 0 && HexMatch(c) > 0
    ensures CanonicalHex(h) && (x == 'X' || x == 'x')
    ensures Numbered(c) == ['#', x] + h + ";" + rest
  {
    x := c[1];
    assert c[..2] == ['#', x];
    hide HexMatch, KeptHex;
    h, rest := KeptHex(c), c[HexMatch(c)..];
  }

  lemma DigitsOfDecimal(g: string, rest: string)
    requires CanonicalDecimal(g)
    ensures DecimalDigits(g + (";" + rest)) == (|g|, |g|)
  {
    var d := g + (";" + rest);
    assert (";" + rest)[0] == ';';
    RunExactly(Digits, g, ";" + rest);
    if g[0] != '0' {
      assert Run(Zeros, d) == 0;
    } else {
      RunExactly(Zeros, g, ";" + rest);
    }
  }

  lemma CanonicalDecimalStays(g: string, rest: string)
    requires CanonicalDecimal(g)
    ensures var t := "#" + g + ";" + rest;
      && DecimalMatch(t) == |g| + 2 && t[|g| + 2..] == rest && !Armless(t) && NameMatch(t) == 0
      && Body(Decimals, t) == Guard(g) + ("#" + g + ";")
  {
    var t := "#" + g + ";" + rest;
    assert t[0] == '#';
    DigitsOfDecimal(g, rest);
    hide Run, DecimalDigits, Guard, CanonicalDecimal;
    var d := g + (";" + rest);
    assert t[1..] == d;
    assert d[0..|g|] == g && d[|g|] == ';';
  }

  // A hex number in its parts.
  lemma HexInParts(x: char, h: string, rest: string)
    ensures var t, d := ['#', x] + h + ";" + rest, h + (";" + rest);
      && t[0] == '#' && t[1] == x && t[..2] == ['#', x] && t[2..] == d && t[1..] == [x] + d
      && d[0..|h|] == h && d[|h|] == ';' && d[|h| + 1..] == rest && t[|h| + 3..] == rest
      && |t| == |h| + 3 + |rest| && t[2 + |h|] == ';'
  {}

  lemma HexIsNothingElse(t: string)
    requires |t| >= 2 && t[0] == '#' && (t[1] == 'X' || t[1] == 'x')
    ensures DecimalMatch(t) == 0 && !Armless(t) && NameMatch(t) == 0
  {
    assert Run(Digits, t[1..]) == 0;
    assert |t| >= 4 ==> t[..4][0] == '#';
    assert Run(Alnum, t) == 0;
  }

  lemma CanonicalHexStays(x: char, h: string, rest: string)
    requires CanonicalHex(h) && (x == 'X' || x == 'x')
    ensures var t := ['#', x] + h + ";" + rest;
      && DecimalMatch(t) == 0 && HexMatch(t) == |h| + 3 && t[|h| + 3..] == rest && !Armless(t) && NameMatch(t) == 0
      && Body(Hexes, t) == ['#', x] + h + ";"
  {
    hide Run, HexDigits, DecimalMatch, NameMatch, Armless;
    HexInParts(x, h, rest);
    HexIsNothingElse(['#', x] + h + ";" + rest);
    DigitsOfHex(h, rest);
  }

  lemma DigitsOfHex(h: string, rest: string)
    requires CanonicalHex(h)
    ensures HexDigits(h + (";" + rest)) == (|h|, |h|)
  {
    var d := h + (";" + rest);
    assert (";" + rest)[0] == ';';
    RunExactly(Hex, h, ";" + rest);
    if |h| == 4 {
      assert d[0] == h[0] && d[1] == h[1];
      assert Run(Zeros, d) <= 1;
    }
  }

  lemma DecimalStays(c: string)
    requires DecimalMatch(c) > 0
    ensures Armed(Numbered(c)) == Numbered(c)
  {
    var g, rest := NumberedDecimal(c);
    var t := "#" + g + ";" + rest;
    CanonicalDecimalStays(g, rest);
    ArmedCases(Numbered(c));
    PieceOfArmless(Decimals, t);
    hide DecimalMatch, HexMatch, NameMatch, Body, Value, CanonicalDecimal, Armed;
    Assoc(Guard(g), "#" + g + ";", rest);
    assert Numbered(t) == Guard(g) + t;
    if Guard(g) == "" {
      assert "" + t == t;
    }
  }

  lemma HexStays(c: string)
    requires DecimalMatch(c) == 0 && HexMatch(c) > 0
    ensures Armed(Numbered(c)) == Numbered(c)
  {
    var x, h, rest := NumberedHex(c);
    CanonicalHexStays(x, h, rest);
    ArmedCases(Numbered(c));
    hide DecimalMatch, HexMatch, NameMatch, Body, CanonicalHex, Armed;
  }

  lemma NumberedStays(c: string)
    ensures Armed(Numbered(c)) == Numbered(c)
  {
    if DecimalMatch(c) > 0 {
      DecimalStays(c);
    } else if HexMatch(c) > 0 {
      HexStays(c);
    } else {
      ArmedCases("amp;" + c);
      PieceOfArmless(Decimals, c);
    }
  }

  lemma ArmedStays(t: string)
    ensures Armed(Armed(t)) == Armed(t)
  {
    ArmedCases(t);
    hide Armed, Numbered, NameMatch;
    if Armless(t) {
      NumberedStays(t[4..]);
    } else if NameMatch(t) > 0 {
      assert Armed(t) == t;
    } else {
      NumberedStays(t);
    }
  }

  lemma {:induction false} AllArmedStay(ts: seq<string>)
    ensures AllArmed(AllArmed(ts)) == AllArmed(ts)
  {
    if ts != [] {
      hide Armed;
      ArmedStays(ts[0]);
      AllArmedStay(ts[1..]);
      assert AllArmed(ts)[1..] == AllArmed(ts[1..]);
    }
  }

  /** Normalising twice is normalising once, on every string. */
  lemma NormalizeIsIdempotent(s: string)
    ensures Normalize(Normalize(s)) == Normalize(s)
  {
    hide Normalize;
    var head, ts := Split(s)[0], Split(s)[1..];
    SplitJoins(s);
    NormalizeByPieces(head, ts);
    NormalizeByPieces(head, AllArmed(ts));
    AllArmedStay(ts);
  }

  // ----- what normalising means -----

  /** Text that makes the ampersand in front of it an entity kses allows: a name
      of up to 20 characters, a 16-bit decimal, or two or four hex digits. */
  predicate Allowed(t: string) {
    || NameMatch(t) > 0
    || (DecimalMatch(t) > 0 && Body(Decimals, t) == t[..DecimalMatch(t)])
    || (HexMatch(t) > 0 && Body(Hexes, t) == t[..HexMatch(t)])
  }

  lemma DecimalIsAllowed(c: string)
    requires DecimalMatch(c) > 0
    ensures Allowed(Numbered(c))
  {
    var g, rest := NumberedDecimal(c);
    var t := "#" + g + ";" + rest;
    CanonicalDecimalStays(g, rest);
    GuardCases(g);
    AmpIsAllowed(t);
    hide DecimalMatch, HexMatch, NameMatch, CanonicalDecimal, Guard, Body;
    if Guard(g) == "" {
      assert "" + t == t;
      assert "" + ("#" + g + ";") == "#" + g + ";";
      assert t[..|g| + 2] == "#" + g + ";";
    }
  }

  lemma HexIsAllowed(c: string)
    requires DecimalMatch(c) == 0 && HexMatch(c) > 0
    ensures Allowed(Numbered(c))
  {
    var x, h, rest := NumberedHex(c);
    CanonicalHexStays(x, h, rest);
    hide DecimalMatch, HexMatch, NameMatch, CanonicalHex, Body;
    assert (['#', x] + h + ";" + rest)[..|h| + 3] == ['#', x] + h + ";";
  }

  lemma NumberedIsAllowed(c: string)
    ensures Allowed(Numbered(c))
  {
    if DecimalMatch(c) > 0 {
      DecimalIsAllowed(c);
    } else if HexMatch(c) > 0 {
      HexIsAllowed(c);
    } else {
      AmpIsAllowed(c);
    }
  }

  lemma AmpIsAllowed(c: string)
    ensures Allowed("amp;" + c)
  {
    PieceOfArmless(Names, c);
    AmpIsAName("amp;" + c);
  }

  lemma ArmedIsAllowed(t: string)
    ensures Allowed(Armed(t))
  {
    ArmedCases(t);
    hide Armed, Numbered, NameMatch;
    NumberedIsAllowed(if Armless(t) then t[4..] else t);
  }

  lemma {:induction false} AllArmedAreAllowed(ts: seq<string>)
    ensures forall t | t in AllArmed(ts) :: Allowed(t)
  {
    if ts != [] {
      hide Armed, Allowed;
      ArmedIsAllowed(ts[0]);
      AllArmedAreAllowed(ts[1..]);
    }
  }

  /** In a normalised string every ampersand starts an allowed entity, and the
      text in front of the first ampersand is the original's. */
  lemma EveryAmpersandIsAllowed(s: string)
    ensures forall t | t in Split(Normalize(s))[1..] :: Allowed(t)
    ensures Split(Normalize(s))[0] == Split(s)[0]
  {
    hide Normalize, Allowed;
    var head, ts := Split(s)[0], Split(s)[1..];
    SplitJoins(s);
    NormalizeByPieces(head, ts);
    JoinSplits(head, AllArmed(ts));
    AllArmedAreAllowed(ts);
  }
}
