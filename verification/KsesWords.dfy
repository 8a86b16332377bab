/**
 The entities of the normaliser as words (licqweb/kses.php:509-539), without its
 scanners: which words its three patterns match, and what becomes of an ampersand
 in front of one, or of none.
 */
module KsesWords {
  import opened Sequences
  import opened KsesEntities

  // ----- the words -----

  function ZeroDigits(n: nat): (s: string)
    ensures |s| == n && forall i :: 0 <= i < n ==> s[i] == '0'
  {
    if n == 0 then "" else "0" + ZeroDigits(n - 1)
  }

  // A number as it is printed.
  function Decimal(n: nat): (s: string) {
    if n < 10 then [('0' as int + n) as char] else Decimal(n / 10) + [('0' as int + n % 10) as char]
  }

  /** A letter, up to 19 alphanumerics, and a semicolon. */
  predicate NameWord(w: string) {
    && 2 <= |w| <= 21 && w[|w| - 1] == ';' && IsLetter(w[0])
    && forall i :: 1 <= i < |w| - 1 ==> IsLetter(w[i]) || IsDigit(w[i])
  }

  datatype Number = DecimalNumber(n: nat) | HexNumber(x: char, h: string)

  /** A number of up to five digits, or the two or four hex digits of a word without needless zeros. */
  predicate Writable(e: Number) {
    match e
    case DecimalNumber(n) => n <= 99999
    case HexNumber(x, h) =>
      && (x == 'X' || x == 'x') && (|h| == 2 || (|h| == 4 && h[..2] != "00"))
      && forall i :: 0 <= i < |h| ==> IsHex(h[i])
  }

  // The word of a number, with needless zeros in front of its digits.
  function Word(e: Number, zeros: nat): (w: string) {
    match e
    case DecimalNumber(n) => "#" + (ZeroDigits(zeros) + (Decimal(n) + ";"))
    case HexNumber(x, h) => "#" + ([x] + (ZeroDigits(zeros) + (h + ";")))
  }

  predicate TooBig(e: Number) {
    e.DecimalNumber? && e.n > 65535
  }

  // ----- a number in front of t -----

  predicate AheadOf(e: Number, zeros: nat, rest: string, t: string) {
    Writable(e) && t == Word(e, zeros) + rest
  }

  ghost predicate NumberAhead(t: string) {
    exists e: Number, zeros: nat, rest: string :: AheadOf(e, zeros, rest, t)
  }

  ghost predicate NameAhead(t: string) {
    exists n: nat :: n <= |t| && NameWord(t[..n])
  }

  // What a number becomes: without needless zeros, and disarmed if it has more than 16 bits.
  function Rearmed(e: Number, rest: string): (r: string) {
    (if TooBig(e) then "amp;" else "") + (Word(e, 0) + rest)
  }

  /** What becomes of the text t behind an ampersand. A number behind "amp;" is re-armed as well. */
  ghost predicate Becomes(t: string, r: string) {
    || (exists e: Number, zeros: nat, rest: string ::
          (AheadOf(e, zeros, rest, t) || (Armless(t) && AheadOf(e, zeros, rest, t[4..]))) && r == Rearmed(e, rest))
    || (!NumberAhead(t) && !(Armless(t) && NumberAhead(t[4..])) && r == if NameAhead(t) then t else "amp;" + t)
  }

  // ----- numbers and their digits -----

  lemma {:induction false} DecimalIsCanonical(n: nat, k: nat)
    requires 1 <= k <= 5 && n < Power(k)
    ensures var g := Decimal(n);
      && 1 <= |g| <= k && (forall i :: 0 <= i < |g| ==> IsDigit(g[i])) && (|g| > 1 ==> g[0] != '0')
      && Value(g) == n && (n > 0 ==> g[0] != '0')
    decreases k
  {
    var g := Decimal(n);
    if n >= 10 {
      DecimalIsCanonical(n / 10, k - 1);
      assert g[..|g| - 1] == Decimal(n / 10);
    } else {
      assert g[..0] == "";
    }
  }

  function Power(k: nat): nat {
    if k == 0 then 1 else 10 * Power(k - 1)
  }

  lemma {:induction false} CanonicalIsDecimal(g: string)
    requires CanonicalDecimal(g)
    ensures Value(g) < Power(|g|) && (g[0] != '0' ==> Value(g) > 0) && g == Decimal(Value(g))
  {
    var front, d := g[..|g| - 1], g[|g| - 1] as int - '0' as int;
    assert g == front + [g[|g| - 1]];
    if |g| > 1 {
      CanonicalIsDecimal(front);
      assert Value(g) / 10 == Value(front) && Value(g) % 10 == d;
    } else {
      assert front == "";
    }
  }

  lemma FiveDigits(g: string)
    requires CanonicalDecimal(g)
    ensures Value(g) <= 99999 && g == Decimal(Value(g))
  {
    CanonicalIsDecimal(g);
    PowersUpToFive(|g|);
  }

  lemma PowersUpToFive(k: nat)
    requires k <= 5
    ensures Power(k) <= 100000 && (k == 5 ==> Power(k) == 100000)
  {
    assert Power(1) == 10 && Power(2) == 100 && Power(3) == 1000 && Power(4) == 10000;
  }

  lemma NumberIsCanonical(n: nat)
    requires n <= 99999
    ensures CanonicalDecimal(Decimal(n)) && Value(Decimal(n)) == n && (n > 0 ==> Decimal(n)[0] != '0')
  {
    PowersUpToFive(5);
    DecimalIsCanonical(n, 5);
  }

  // ----- from words to matches -----

  // Zeros, more of a class, and then something else.
  lemma RunOfDigits(k: Class, zeros: nat, g: string, rest: string)
    requires (k == Digits || k == Hex) && forall i :: 0 <= i < |g| ==> In(k, g[i])
    ensures Run(k, Tail(zeros, g, rest)) == zeros + |g|
  {
    var z := ZeroDigits(zeros);
    Assoc(z, g, ";" + rest);
    RunExactly(k, z + g, ";" + rest);
  }

  lemma RunOfZeros(zeros: nat, g: string, rest: string)
    requires g != ""
    ensures var d := Tail(zeros, g, rest);
      if g[0] != '0' then Run(Zeros, d) == zeros
      else Run(Zeros, d) > zeros && (|g| > 1 && g[1] != '0' ==> Run(Zeros, d) == zeros + 1)
           && (g == "0" ==> Run(Zeros, d) == zeros + 1) && (g == "00" ==> Run(Zeros, d) == zeros + 2)
  {
    var z := ZeroDigits(zeros);
    var d := z + (g + (";" + rest));
    assert d[zeros] == g[0] && d[zeros + |g|] == ';';
    assert |g| > 1 ==> d[zeros + 1] == g[1];
    assert forall i :: 0 <= i < zeros ==> d[i] == '0';
  }

  // The digits in their places.
  lemma DigitsInPlace(zeros: nat, g: string, rest: string)
    ensures var d := Tail(zeros, g, rest);
      && |d| == zeros + |g| + 1 + |rest| && d[zeros..zeros + |g|] == g && d[zeros + |g|] == ';' && d[zeros + |g| + 1..] == rest
  {}

  // The digits of a word and what follows them.
  function Tail(zeros: nat, g: string, rest: string): (d: string) {
    ZeroDigits(zeros) + (g + (";" + rest))
  }

  lemma WordInPieces(zeros: nat, n: nat, x: char, h: string, rest: string)
    ensures Word(DecimalNumber(n), zeros) + rest == "#" + Tail(zeros, Decimal(n), rest)
    ensures Word(HexNumber(x, h), zeros) + rest == ['#', x] + Tail(zeros, h, rest)
  {
    hide ZeroDigits, Decimal;
    TailInPieces(zeros, Decimal(n), rest);
    TailInPieces(zeros, h, rest);
    Assoc("#", ZeroDigits(zeros) + (Decimal(n) + ";"), rest);
    Assoc("#", [x] + (ZeroDigits(zeros) + (h + ";")), rest);
    Assoc([x], ZeroDigits(zeros) + (h + ";"), rest);
    Assoc("#", [x], Tail(zeros, h, rest));
    assert "#" + [x] == ['#', x];
  }

  lemma TailInPieces(zeros: nat, g: string, rest: string)
    ensures (ZeroDigits(zeros) + (g + ";")) + rest == Tail(zeros, g, rest)
  {
    Assoc(ZeroDigits(zeros), g + ";", rest);
    Assoc(g, ";", rest);
  }

  lemma DigitsOfDecimalWord(zeros: nat, n: nat, rest: string)
    requires n <= 99999
    ensures var g := Decimal(n); g != "" && DecimalDigits(Tail(zeros, g, rest)) == (zeros + |g|, |g|)
    ensures IsDigit(Tail(zeros, Decimal(n), rest)[0])
  {
    var g := Decimal(n);
    NumberIsCanonical(n);
    RunOfDigits(Digits, zeros, g, rest);
    RunOfZeros(zeros, g, rest);
    hide Run, Decimal, Value;
  }

  lemma DecimalWordMatches(zeros: nat, n: nat, rest: string)
    requires n <= 99999
    ensures var t := Word(DecimalNumber(n), zeros) + rest;
      && DecimalMatch(t) > 0 && KeptDigits(t) == Decimal(n) && t[DecimalMatch(t)..] == rest && HexMatch(t) == 0
  {
    hide Run, Decimal, Word, CanonicalDecimal;
    var g := Decimal(n);
    WordInPieces(zeros, n, 'x', "", rest);
    DigitsOfDecimalWord(zeros, n, rest);
    DigitsInPlace(zeros, g, rest);
    hide DecimalDigits, Tail;
    var d := Tail(zeros, g, rest);
    var t := "#" + d;
    assert t[1..] == d && t[0] == '#' && t[1] == d[0];
    assert t[zeros + |g| + 2..] == d[zeros + |g| + 1..];
  }

  lemma DigitsOfHexWord(zeros: nat, x: char, h: string, rest: string)
    requires Writable(HexNumber(x, h))
    ensures HexDigits(Tail(zeros, h, rest)) == (zeros + |h|, |h|)
  {
    assert |h| >= 2 && (h[..2] == "00" <==> h[0] == '0' && h[1] == '0');
    assert |h| == 2 ==> h[..2] == h;
    RunOfDigits(Hex, zeros, h, rest);
    RunOfZeros(zeros, h, rest);
    hide Run;
  }

  lemma HexWordMatches(zeros: nat, x: char, h: string, rest: string)
    requires Writable(HexNumber(x, h))
    ensures var t := Word(HexNumber(x, h), zeros) + rest;
      && DecimalMatch(t) == 0 && HexMatch(t) > 0 && t[..2] == ['#', x] && KeptHex(t) == h && t[HexMatch(t)..] == rest
  {
    hide Run, Word, CanonicalHex, DecimalMatch;
    WordInPieces(zeros, 0, x, h, rest);
    DigitsOfHexWord(zeros, x, h, rest);
    DigitsInPlace(zeros, h, rest);
    hide HexDigits, Tail;
    var d := Tail(zeros, h, rest);
    var t := ['#', x] + d;
    assert t[0] == '#' && t[1] == x && t[..2] == ['#', x] && t[2..] == d;
    assert t[zeros + |h| + 3..] == d[zeros + |h| + 1..];
    HexIsNothingElse(t);
  }

  // ----- the words are those of the patterns -----

  lemma MoreZeros(n: nat, rest: string)
    ensures ZeroDigits(n + 1) + rest == ZeroDigits(n) + ("0" + rest)
  {
    assert ZeroDigits(n + 1) == ZeroDigits(n) + "0";
  }

  /** #, zeros, one to five digits, and a semicolon: such a word is that of a number. */
  lemma {:induction false} DigitsAreNumber(zeros: nat, g: string)
    requires 1 <= |g| <= 5 && forall i :: 0 <= i < |g| ==> IsDigit(g[i])
    ensures exists e: Number, z: nat :: e.DecimalNumber? && Writable(e) && "#" + (ZeroDigits(zeros) + (g + ";")) == Word(e, z)
    decreases |g|
  {
    if CanonicalDecimal(g) {
      FiveDigits(g);
      assert "#" + (ZeroDigits(zeros) + (g + ";")) == Word(DecimalNumber(Value(g)), zeros);
    } else {
      DigitsAreNumber(zeros + 1, g[1..]);
      MoreZeros(zeros, g[1..] + ";");
      assert g == "0" + g[1..];
      Assoc("0", g[1..], ";");
    }
  }

  /** The same of #, X or x, zeros, two or four hex digits, and a semicolon. */
  lemma HexDigitsAreNumber(x: char, zeros: nat, h: string)
    requires (x == 'X' || x == 'x') && (|h| == 2 || |h| == 4) && forall i :: 0 <= i < |h| ==> IsHex(h[i])
    ensures exists e: Number, z: nat ::
      e.HexNumber? && Writable(e) && "#" + ([x] + (ZeroDigits(zeros) + (h + ";"))) == Word(e, z)
  {
    if |h| == 4 && h[..2] == "00" {
      TwoMoreZeros(zeros, h);
      hide ZeroDigits;
      assert Writable(HexNumber(x, h[2..]));
      assert Word(HexNumber(x, h[2..]), zeros + 2) == "#" + ([x] + (ZeroDigits(zeros + 2) + (h[2..] + ";")));
    } else {
      hide ZeroDigits;
      assert Word(HexNumber(x, h), zeros) == "#" + ([x] + (ZeroDigits(zeros) + (h + ";")));
    }
  }

  lemma TwoMoreZeros(zeros: nat, h: string)
    requires |h| == 4 && h[..2] == "00"
    ensures ZeroDigits(zeros + 2) + (h[2..] + ";") == ZeroDigits(zeros) + (h + ";")
  {
    MoreZeros(zeros + 1, h[2..] + ";");
    MoreZeros(zeros, "0" + (h[2..] + ";"));
    assert h[0] == h[..2][0] && h[1] == h[..2][1];
    assert "0" + ("0" + (h[2..] + ";")) == h + ";";
  }

  // ----- from matches to words -----

  lemma RunOfZerosIs(t: string, n: nat)
    requires n <= Run(Zeros, t)
    ensures t[..n] == ZeroDigits(n)
  {}

  lemma DecimalMatchIsWord(t: string) returns (n: nat, zeros: nat, rest: string)
    requires DecimalMatch(t) > 0
    ensures AheadOf(DecimalNumber(n), zeros, rest, t)
    ensures KeptDigits(t) == Decimal(n) && rest == t[DecimalMatch(t)..]
  {
    var d, g := t[1..], KeptDigits(t);
    var (run, kept) := DecimalDigits(d);
    FiveDigits(g);
    n, zeros, rest := Value(g), run - kept, t[DecimalMatch(t)..];
    ZerosAmong(Digits, d);
    RunOfZerosIs(d, zeros);
    hide Run, Decimal, Value, CanonicalDecimal, Word, DecimalDigits;
    assert g == d[zeros..run] && d[run] == ';' && d[run + 1..] == rest;
    InPieces(d, zeros, run);
    assert t == "#" + d;
    WordInPieces(zeros, n, 'x', "", rest);
  }

  lemma InPieces(d: string, a: nat, b: nat)
    requires a <= b < |d|
    ensures d == d[..a] + (d[a..b] + ([d[b]] + d[b + 1..]))
  {}

  lemma KeptHexIsWritable(t: string)
    requires HexMatch(t) > 0
    ensures Writable(HexNumber(t[1], KeptHex(t)))
  {
    hide HexMatch, HexDigits;
    var h := KeptHex(t);
    assert |h| >= 2 && (h[..2] == "00" <==> h[0] == '0' && h[1] == '0');
    HexStart(t);
  }

  lemma HexStart(t: string)
    requires HexMatch(t) > 0
    ensures |t| >= 2 && (t[1] == 'X' || t[1] == 'x') && t[..2] == ['#', t[1]] && t == ['#', t[1]] + t[2..]
  {
    hide HexDigits;
  }

  lemma HexMatchIsWord(t: string) returns (x: char, h: string, zeros: nat, rest: string)
    requires HexMatch(t) > 0
    ensures AheadOf(HexNumber(x, h), zeros, rest, t)
    ensures KeptHex(t) == h && rest == t[HexMatch(t)..]
  {
    var d := t[2..];
    KeptHexIsWritable(t);
    HexStart(t);
    ZerosAmong(Hex, d);
    hide Run, CanonicalHex;
    var (run, kept) := HexDigits(d);
    x, h, zeros, rest := t[1], KeptHex(t), run - kept, t[HexMatch(t)..];
    RunOfZerosIs(d, zeros);
    hide HexDigits, Word, Writable;
    assert h == d[zeros..run] && d[run] == ';' && d[run + 1..] == rest;
    InPieces(d, zeros, run);
    WordInPieces(zeros, 0, x, h, rest);
  }

  lemma NameMatchIff(t: string)
    ensures NameMatch(t) > 0 <==> NameAhead(t)
  {
    if NameMatch(t) > 0 {
      assert NameWord(t[..NameMatch(t)]);
    }
    if NameAhead(t) {
      var n: nat :| n <= |t| && NameWord(t[..n]);
      var w := t[..n];
      var name := w[..n - 1];
      assert t == name + (";" + t[n..]);
      assert forall i :: 0 <= i < |name| ==> In(Alnum, name[i]);
      RunExactly(Alnum, name, ";" + t[n..]);
      assert t[0] == w[0] && t[n - 1] == w[n - 1];
    }
  }

  // ----- what re-arming does to a number -----

  lemma NumberedIs(e: Number, zeros: nat, rest: string, c: string)
    requires AheadOf(e, zeros, rest, c)
    ensures Numbered(c) == Rearmed(e, rest)
    ensures c != "" && c[0] == '#'
  {
    match e {
      case DecimalNumber(n) => DecimalIsRearmed(n, zeros, rest);
      case HexNumber(x, h) => HexIsRearmed(x, h, zeros, rest);
    }
  }

  lemma DecimalIsRearmed(n: nat, zeros: nat, rest: string)
    requires n <= 99999
    ensures var c := Word(DecimalNumber(n), zeros) + rest;
      Numbered(c) == Rearmed(DecimalNumber(n), rest) && c[0] == '#'
  {
    DecimalWordMatches(zeros, n, rest);
    NumberIsCanonical(n);
    hide DecimalMatch, HexMatch, KeptDigits, Decimal, Value, ZeroDigits;
    var g := Decimal(n);
    ZeroZeros(g + ";");
    Assoc(Guard(g), "#" + g + ";", rest);
    Assoc("#", g, ";");
  }

  lemma HexIsRearmed(x: char, h: string, zeros: nat, rest: string)
    requires Writable(HexNumber(x, h))
    ensures var c := Word(HexNumber(x, h), zeros) + rest;
      Numbered(c) == Rearmed(HexNumber(x, h), rest) && c[0] == '#'
  {
    HexWordMatches(zeros, x, h, rest);
    HexWordIs(x, h);
    hide DecimalMatch, HexMatch, KeptHex, Writable, Word;
    var c, w := Word(HexNumber(x, h), zeros) + rest, Word(HexNumber(x, h), 0);
    assert Body(Hexes, c) == w;
    assert "" + (w + rest) == w + rest;
    assert c[0] == c[..2][0];
  }

  lemma HexWordIs(x: char, h: string)
    ensures Word(HexNumber(x, h), 0) == ['#', x] + h + ";"
  {
    ZeroZeros(h + ";");
    hide *;
    HexWordOf(x, h, 0);
    Assoc(['#', x], h, ";");
    Assoc("#", [x], h + ";");
    assert "#" + [x] == ['#', x];
  }

  lemma HexWordOf(x: char, h: string, zeros: nat)
    ensures Word(HexNumber(x, h), zeros) == "#" + ([x] + (ZeroDigits(zeros) + (h + ";")))
  {}

  lemma ZeroZeros(s: string)
    ensures ZeroDigits(0) + s == s
  {}

  lemma NumberedIff(c: string)
    ensures NumberAhead(c) <==> DecimalMatch(c) > 0 || HexMatch(c) > 0
    ensures !NumberAhead(c) ==> Numbered(c) == "amp;" + c
  {
    if NumberAhead(c) {
      var e: Number, zeros: nat, rest: string :| AheadOf(e, zeros, rest, c);
      match e {
        case DecimalNumber(n) => DecimalWordMatches(zeros, n, rest);
        case HexNumber(x, h) => HexWordMatches(zeros, x, h, rest);
      }
    }
    hide DecimalMatch, HexMatch, KeptDigits, KeptHex, Writable, Word;
    if DecimalMatch(c) > 0 {
      var n, zeros, rest := DecimalMatchIsWord(c);
    } else if HexMatch(c) > 0 {
      var x, h, zeros, rest := HexMatchIsWord(c);
    }
  }

  lemma AheadIsNumber(t: string)
    requires NumberAhead(t)
    ensures t != "" && t[0] == '#' && !Armless(t) && NameMatch(t) == 0
  {
    var e: Number, zeros: nat, rest: string :| AheadOf(e, zeros, rest, t);
    NumberedIs(e, zeros, rest, t);
    hide *;
    NumberSign(t);
  }

  lemma NumberSign(t: string)
    requires t != "" && t[0] == '#'
    ensures !Armless(t) && NameMatch(t) == 0
  {
    assert |t| >= 4 ==> t[..4][0] == '#';
    assert Run(Alnum, t) == 0;
  }

  lemma BecomesNumber(t: string, c: string, r: string)
    requires NumberAhead(c) && (c == t || (Armless(t) && c == t[4..]))
    ensures Becomes(t, r) <==> r == Numbered(c)
  {
    var e: Number, zeros: nat, rest: string :| AheadOf(e, zeros, rest, c);
    NumberedIs(e, zeros, rest, c);
    hide Word, Writable, AheadOf, Numbered, Rearmed;
    if Becomes(t, r) {
      var e', zeros': nat, rest' :|
        (AheadOf(e', zeros', rest', t) || (Armless(t) && AheadOf(e', zeros', rest', t[4..]))) && r == Rearmed(e', rest');
      assert NumberAhead(t) ==> !Armless(t) by {
        if NumberAhead(t) {
          AheadIsNumber(t);
        }
      }
      assert AheadOf(e', zeros', rest', c);
      NumberedIs(e', zeros', rest', c);
    }
  }

  lemma BecomesOther(t: string, r: string)
    requires !NumberAhead(t) && !(Armless(t) && NumberAhead(t[4..]))
    ensures Becomes(t, r) <==> r == if NameAhead(t) then t else "amp;" + t
  {
    hide AheadOf, NameAhead, Rearmed;
    assert forall e: Number, zeros: nat, rest: string :: !AheadOf(e, zeros, rest, t);
    assert Armless(t) ==> forall e: Number, zeros: nat, rest: string :: !AheadOf(e, zeros, rest, t[4..]);
  }

  lemma ArmedIff(t: string, r: string)
    ensures Becomes(t, r) <==> r == Armed(t)
  {
    ArmedCases(t);
    NumberedIff(t);
    NameMatchIff(t);
    hide *;
    if NumberAhead(t) {
      AheadIsNumber(t);
      BecomesNumber(t, t, r);
    } else if Armless(t) {
      ArmlessFront(t);
      NumberedIff(t[4..]);
      if NumberAhead(t[4..]) {
        BecomesNumber(t, t[4..], r);
      } else {
        AmpIsAName(t);
        BecomesOther(t, r);
      }
    } else {
      BecomesOther(t, r);
    }
  }

  lemma ArmlessFront(t: string)
    requires Armless(t)
    ensures |t| >= 4 && t == "amp;" + t[4..]
  {}

  // ----- whole strings -----

  lemma {:induction false} AllArmedAt(ts: seq<string>, i: nat)
    requires i < |ts|
    ensures |AllArmed(ts)| == |ts| && AllArmed(ts)[i] == Armed(ts[i])
  {
    hide Armed;
    if |ts| > 1 {
      AllArmedAt(ts[1..], if i == 0 then 0 else i - 1);
    }
  }

  lemma SplitOfNormalized(s: string)
    ensures Split(Normalize(s)) == [Split(s)[0]] + AllArmed(Split(s)[1..])
  {
    hide Normalize, Armed;
    var head, ts := Split(s)[0], Split(s)[1..];
    SplitJoins(s);
    NormalizeByPieces(head, ts);
    JoinSplits(head, AllArmed(ts));
  }

  lemma {:induction false} SameSplit(a: string, b: string)
    requires Split(a) == Split(b)
    ensures a == b
  {
    SplitJoins(a);
    SplitJoins(b);
  }

  // Both strings have as many ampersands, and the text behind each became what it should.
  ghost predicate BecameBehindEach(s: string, r: string) {
    && |Split(r)| == |Split(s)| && Split(r)[0] == Split(s)[0]
    && forall i :: 1 <= i < |Split(s)| ==> Becomes(Split(s)[i], Split(r)[i])
  }

  /** A string is what s is normalised to exactly when the text behind each ampersand
      of s became what the words in front of it make of it. */
  lemma NormalizedIff(s: string, r: string)
    ensures r == Normalize(s) <==> BecameBehindEach(s, r)
  {
    hide Normalize, Armed, Becomes;
    var ts, rs := Split(s), Split(Normalize(s));
    SplitOfNormalized(s);
    if |ts| > 1 {
      AllArmedAt(ts[1..], 0);
    }
    forall i | 1 <= i < |ts|
      ensures forall x :: Becomes(ts[i], x) <==> x == rs[i]
    {
      AllArmedAt(ts[1..], i - 1);
      forall x ensures Becomes(ts[i], x) <==> x == rs[i] {
        ArmedIff(ts[i], x);
      }
    }
    if BecameBehindEach(s, r) {
      assert Split(r) == rs;
      SameSplit(r, Normalize(s));
    }
  }

  /** In front of t an ampersand is left alone: a name stands there, or a number of at
      most 16 bits without needless zeros. A number behind "amp;" is left disarmed only
      if it is too big, and has no needless zeros. */
  ghost predicate Kept(t: string) {
    if Armless(t) && NumberAhead(t[4..])
    then exists e: Number, rest: string :: AheadOf(e, 0, rest, t[4..]) && TooBig(e)
    else NameAhead(t) || exists e: Number, rest: string :: AheadOf(e, 0, rest, t) && !TooBig(e)
  }

  lemma NumberIsKeptIff(t: string)
    requires NumberAhead(t)
    ensures Armed(t) == t <==> exists e: Number, rest: string :: AheadOf(e, 0, rest, t) && !TooBig(e)
  {
    AheadIsNumber(t);
    ArmedCases(t);
    hide Numbered, Writable, Word, NameMatch, Armed;
    var e: Number, zeros: nat, rest: string :| AheadOf(e, zeros, rest, t);
    NumberedIs(e, zeros, rest, t);
    if Armed(t) == t {
      assert Rearmed(e, rest)[0] == '#' by {
        assert t[0] == '#';
      }
      assert !TooBig(e);
      assert "" + (Word(e, 0) + rest) == Word(e, 0) + rest;
      assert AheadOf(e, 0, rest, t);
    }
    forall e: Number, rest: string | AheadOf(e, 0, rest, t) && !TooBig(e)
      ensures Armed(t) == t
    {
      NumberedIs(e, 0, rest, t);
      assert "" + (Word(e, 0) + rest) == Word(e, 0) + rest;
    }
  }

  lemma DisarmedIsKeptIff(t: string)
    requires Armless(t) && NumberAhead(t[4..])
    ensures Armed(t) == t <==> exists e: Number, rest: string :: AheadOf(e, 0, rest, t[4..]) && TooBig(e)
  {
    var c := t[4..];
    assert t == "amp;" + c;
    ArmedCases(t);
    hide Numbered, Writable, Word, NameMatch, Armed;
    var e: Number, zeros: nat, rest: string :| AheadOf(e, zeros, rest, c);
    NumberedIs(e, zeros, rest, c);
    if Armed(t) == t {
      WordStarts(e, rest);
      assert "" + (Word(e, 0) + rest) == Word(e, 0) + rest;
      assert ("amp;" + (Word(e, 0) + rest))[4..] == Word(e, 0) + rest;
      assert t[0] == 'a';
      assert AheadOf(e, 0, rest, c) && TooBig(e);
    }
    forall e: Number, rest: string | AheadOf(e, 0, rest, c) && TooBig(e)
      ensures Armed(t) == t
    {
      NumberedIs(e, 0, rest, c);
    }
  }

  lemma WordStarts(e: Number, rest: string)
    ensures (Word(e, 0) + rest)[0] == '#'
  {}

  lemma ArmedIsSameIff(t: string)
    ensures Armed(t) == t <==> Kept(t)
  {
    hide Armed, AheadOf, NumberAhead, NameAhead, TooBig;
    ArmedIff(t, t);
    if NumberAhead(t) {
      AheadIsNumber(t);
      NameMatchIff(t);
      NumberIsKeptIff(t);
    } else if Armless(t) && NumberAhead(t[4..]) {
      DisarmedIsKeptIff(t);
    } else {
      NeitherIsKeptIff(t);
    }
  }

  lemma NeitherIsKeptIff(t: string)
    requires !NumberAhead(t) && !(Armless(t) && NumberAhead(t[4..]))
    ensures Armed(t) == t <==> Kept(t)
  {
    hide Armed, AheadOf, NameAhead, TooBig;
    ArmedIff(t, t);
    ArmedIff(t, "amp;" + t);
    assert |"amp;" + t| == |t| + 4;
    assert forall e: Number, rest: string :: !AheadOf(e, 0, rest, t);
  }

  lemma {:induction false} AllArmedIsSame(ts: seq<string>)
    ensures AllArmed(ts) == ts <==> forall t :: t in ts ==> Armed(t) == t
  {
    hide Armed;
    if ts != [] {
      var x, xs := Armed(ts[0]), AllArmed(ts[1..]);
      AllArmedIsSame(ts[1..]);
      assert ([x] + xs)[0] == x && ([x] + xs)[1..] == xs;
      assert ts == [ts[0]] + ts[1..];
      assert forall t :: t in ts <==> t == ts[0] || t in ts[1..];
    }
  }

  /** Normalising leaves a string alone exactly when it leaves each of its ampersands alone. */
  lemma UnchangedIffKept(s: string)
    ensures Normalize(s) == s <==> forall t :: t in Split(s)[1..] ==> Kept(t)
  {
    hide Normalize, Armed, Kept;
    var ts := Split(s)[1..];
    SplitOfNormalized(s);
    assert Split(s) == [Split(s)[0]] + ts;
    assert Split(Normalize(s))[1..] == AllArmed(ts);
    if Split(Normalize(s)) == Split(s) {
      SameSplit(Normalize(s), s);
    }
    AllArmedIsSame(ts);
    forall t ensures Armed(t) == t <==> Kept(t) {
      ArmedIsSameIff(t);
    }
  }

  /** An ampersand is allowed exactly in front of a name, or of a number of at most 16
      bits without needless zeros. */
  lemma AllowedIff(t: string)
    ensures Allowed(t) <==> NameAhead(t) || exists e: Number, rest: string :: AheadOf(e, 0, rest, t) && !TooBig(e)
  {
    NameMatchIff(t);
    AllowedByBody(t);
    hide DecimalMatch, HexMatch, NameMatch, Body, Allowed, NameAhead, AheadOf, TooBig;
    if NumberAhead(t) {
      NumberIsKeptIff(t);
      AheadIsNumber(t);
      ArmedCases(t);
      NumberedIff(t);
    } else {
      NumberedIff(t);
      assert forall e: Number, rest: string :: !AheadOf(e, 0, rest, t);
    }
  }

  // Allowed as a number: what it is re-armed to is what it was.
  lemma AllowedByBody(t: string)
    ensures DecimalMatch(t) > 0 || HexMatch(t) > 0 ==> NameMatch(t) == 0 && (Allowed(t) <==> Numbered(t) == t)
    ensures DecimalMatch(t) == 0 && HexMatch(t) == 0 ==> (Allowed(t) <==> NameMatch(t) > 0)
  {
    if DecimalMatch(t) > 0 || HexMatch(t) > 0 {
      assert t[0] == '#';
      assert Run(Alnum, t) == 0;
      DecimalIsNotHex(t);
      hide DecimalMatch, HexMatch, Body;
      if DecimalMatch(t) > 0 {
        SameFront(t, DecimalMatch(t), Body(Decimals, t));
      } else {
        SameFront(t, HexMatch(t), Body(Hexes, t));
      }
    }
  }

  lemma SameFront(t: string, n: nat, b: string)
    requires n <= |t|
    ensures b + t[n..] == t <==> b == t[..n]
  {
    assert t == t[..n] + t[n..];
    if b + t[n..] == t {
      assert |b| == n && (b + t[n..])[..n] == b;
    }
  }

  lemma DecimalIsNotHex(t: string)
    ensures DecimalMatch(t) == 0 || HexMatch(t) == 0
  {
    if HexMatch(t) > 0 {
      HexIsNothingElse(t);
    }
  }

  // ----- a number wherever it stands -----

  lemma {:induction false} JoinConcat(a: seq<string>, b: seq<string>)
    ensures Join(a + b) == Join(a) + Join(b)
  {
    if a == [] {
      assert a + b == b && "" + Join(b) == Join(b);
    } else {
      DropInLeft(a, b, 1);
      JoinConcat(a[1..], b);
      Assoc("&" + a[0], Join(a[1..]), Join(b));
    }
  }

  lemma {:induction false} AllArmedConcat(a: seq<string>, b: seq<string>)
    ensures AllArmed(a + b) == AllArmed(a) + AllArmed(b)
  {
    hide Armed;
    if a == [] {
      assert a + b == b && [] + AllArmed(b) == AllArmed(b);
    } else {
      DropInLeft(a, b, 1);
      AllArmedConcat(a[1..], b);
      Assoc([Armed(a[0])], AllArmed(a[1..]), AllArmed(b));
    }
  }

  // An ampersand and the text up to the next one are normalised by themselves.
  lemma OnePieceMore(a: string, t: string, b: seq<string>)
    requires Plain(t) && AllPlain(b)
    ensures Normalize(a + ("&" + (t + Join(b)))) == Normalize(a) + ("&" + (Armed(t) + Join(AllArmed(b))))
  {
    hide Normalize, Armed;
    var head, ts := Split(a)[0], Split(a)[1..];
    var all := ts + ([t] + b);
    SplitJoins(a);
    assert Plain(head) by {
      assert head in Split(a);
    }
    assert AllPlain(all);
    NormalizeByPieces(head, ts);
    NormalizeByPieces(head, all);
    JoinConcat(ts, [t] + b);
    AllArmedConcat(ts, [t] + b);
    JoinConcat(AllArmed(ts), AllArmed([t] + b));
    assert ([t] + b)[1..] == b;
    Assoc(head, Join(ts), Join([t] + b));
    Assoc("&", t, Join(b));
    Assoc(head, Join(AllArmed(ts)), Join(AllArmed([t] + b)));
    assert AllArmed([t] + b)[1..] == AllArmed(b);
    Assoc("&", Armed(t), Join(AllArmed(b)));
  }

  lemma WordIsPlain(e: Number, zeros: nat)
    requires Writable(e)
    ensures Plain(Word(e, zeros))
  {
    if e.DecimalNumber? {
      NumberIsCanonical(e.n);
    }
    hide Decimal;
  }

  /** Wherever it stands, a number loses its needless zeros, and gets "amp;" exactly when
      it is above 65535; what is in front of it and behind it is normalised by itself. */
  lemma NumberIsRearmed(a: string, e: Number, zeros: nat, b: string)
    requires Writable(e)
    ensures Normalize(a + ("&" + (Word(e, zeros) + b)))
      == Normalize(a) + ("&" + ((if TooBig(e) then "amp;" else "") + (Word(e, 0) + Normalize(b))))
  {
    hide Normalize, Armed, Word, Writable;
    var w := Word(e, zeros);
    var head, bs := Split(b)[0], Split(b)[1..];
    SplitJoins(b);
    assert Plain(head) by {
      assert head in Split(b);
    }
    WordIsPlain(e, zeros);
    assert Plain(w + head);
    OnePieceMore(a, w + head, bs);
    Assoc(w, head, Join(bs));
    NormalizeByPieces(head, bs);
    assert AheadOf(e, zeros, head, w + head);
    assert Becomes(w + head, Rearmed(e, head));
    ArmedIff(w + head, Rearmed(e, head));
    var guard := if TooBig(e) then "amp;" else "";
    Assoc(guard, Word(e, 0) + head, Join(AllArmed(bs)));
    Assoc(Word(e, 0), head, Join(AllArmed(bs)));
  }
}
