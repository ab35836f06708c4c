// Writing patterns: texts with escapes, and a notation for lists of elements that the
// tokenizer reads back.
module PatternTexts {

  import opened Texts
  import opened Wrappers
  import opened PatternMatcher

  predicate Special(c: char) {
    c == '?' || c == '*' || c == '{' || c == '\\' || c == '['
  }

  predicate Plain(s: string) {
    forall c <- s :: !Special(c)
  }

  // Whether a range is read depends only on what stands behind the opening character.
  lemma SameBehind(s: string, i: nat, t: string, j: nat, close: char)
    requires i < |s| && j < |t| && s[i + 1..] == t[j + 1..] && !IsDigit(close) && close != '\0'
    ensures NumRangeAt(s, i, close).Some? <==> NumRangeAt(t, j, close).Some?
  {
    RangeMeaning(s, i, close);
    RangeMeaning(t, j, close);
    if NumRangeAt(s, i, close).Some? {
      var lo, up :| ReadsRange(s, i, close, lo, up);
      assert ReadsRange(t, j, close, lo, up);
    }
    if NumRangeAt(t, j, close).Some? {
      var lo, up :| ReadsRange(t, j, close, lo, up);
      assert ReadsRange(s, i, close, lo, up);
    }
  }

  lemma TokenThen(s: string, i: nat, dotted: bool, afterLiteral: bool, e: Elem, end: nat)
    requires i < |s| && TokenAt(s, i, dotted, afterLiteral) == Token(e, end)
    requires Tokens(s, end, dotted, e.Literal?).Elems?
    ensures Tokens(s, i, dotted, afterLiteral) == Elems([e] + Tokens(s, end, dotted, e.Literal?).elems)
  {
    hide TokenAt;
  }

  lemma LastToken(s: string, i: nat, dotted: bool, afterLiteral: bool, e: Elem)
    requires i < |s| && TokenAt(s, i, dotted, afterLiteral) == Token(e, |s|)
    ensures Tokens(s, i, dotted, afterLiteral) == Elems([e])
  {
    assert Tokens(s, |s|, dotted, e.Literal?) == Elems([]);
    assert [e] + [] == [e];
  }

  // ----- Every character escaped -----

  // Every character with a backslash before it.
  function Escaped(w: string): string {
    if |w| == 0 then "" else ['\\', w[0]] + Escaped(w[1..])
  }

  // What may stand behind a literal for the literal to end there.
  predicate EndsLiteral(rest: string) {
    rest == "" || rest[0] == '?' || rest[0] == '{' || rest[0] == '*'
  }

  lemma {:induction false} EscapedLiteral(w: string, before: string, rest: string)
    requires EndsLiteral(rest)
    ensures LiteralAt(before + Escaped(w) + rest, |before|) == Some((w, |before + Escaped(w)|))
    decreases |w|
  {
    var s := before + Escaped(w) + rest;
    if |w| > 0 {
      var next := before + ['\\', w[0]];
      assert s == next + Escaped(w[1..]) + rest;
      EscapedLiteral(w[1..], next, rest);
      var i := |before|;
      assert s[i] == '\\' && s[i + 1] == w[0];
      NoRangeBehind(w[1..], rest, next);
      assert [w[0]] + w[1..] == w;
    }
  }

  lemma NoRangeBehind(w: string, rest: string, before: string)
    requires EndsLiteral(rest) && |before| > 0
    ensures NumRangeAt(before + Escaped(w) + rest, |before| - 1, ']').None?
  {
    var s := before + Escaped(w) + rest;
    assert |before| < |s| ==> s[|before|] == if w == "" then rest[0] else '\\';
  }

  // With every character escaped a pattern matches exactly the text.
  lemma EscapedMatches(w: string, dotted: bool, line: string)
    ensures Compile(Escaped(w), dotted, true).Elems?
    ensures Accepts(Compile(Escaped(w), dotted, true).elems, line) <==> line == w
  {
    if w == "" {
      assert Compile("", dotted, true) == Elems([]);
      AcceptsNone(line);
    } else {
      var s := Escaped(w);
      EscapedLiteral(w, "", "");
      assert "" + s + "" == s;
      LastToken(s, 0, dotted, false, Literal(w));
      TrailingLiteral(w, line);
    }
  }

  // ----- Special characters escaped -----

  // A character, escaped if it is special.
  function Shown(c: char): (s: string)
    ensures |s| > 0 && s[|s| - 1] == c
  {
    if Special(c) then ['\\', c] else [c]
  }

  function EscapeSpecials(w: string): string {
    if |w| == 0 then ""
    else Shown(w[0]) + EscapeSpecials(w[1..])
  }

  lemma EscapeFirst(w: string)
    requires w != ""
    ensures EscapeSpecials(w) == Shown(w[0]) + EscapeSpecials(w[1..])
  {
  }

  lemma EscapeNone()
    ensures EscapeSpecials("") == ""
  {
  }

  lemma Joined(a: string, b: string, c: string)
    ensures a + (b + c) == a + b + c
  {
  }

  lemma EscapeStep(v: string, w: string)
    requires v != ""
    ensures EscapeSpecials(v) == Shown(v[0]) + EscapeSpecials(v[1..])
    ensures EscapeSpecials(v + w) == Shown(v[0]) + EscapeSpecials(v[1..] + w)
  {
    hide EscapeSpecials;
    EscapeFirst(v);
    EscapeFirst(v + w);
    assert (v + w)[1..] == v[1..] + w;
  }

  lemma {:induction false} EscapeSplit(v: string, w: string)
    ensures EscapeSpecials(v + w) == EscapeSpecials(v) + EscapeSpecials(w)
  {
    hide EscapeSpecials;
    if v == "" {
      EscapeNone();
      assert v + w == w;
    } else {
      EscapeStep(v, w);
      EscapeSplit(v[1..], w);
      Joined(Shown(v[0]), EscapeSpecials(v[1..]), EscapeSpecials(w));
    }
  }

  lemma {:induction false} EscapePlain(w: string)
    requires Plain(w)
    ensures EscapeSpecials(w) == w
  {
    if w != "" {
      assert forall c <- w[1..] :: c in w;
      EscapePlain(w[1..]);
    }
  }

  // Plain text at the beginning is there before and after escaping.
  lemma {:induction false} PlainPrefix(x: string, w: string)
    requires Plain(x)
    ensures x <= w <==> x <= EscapeSpecials(w)
    ensures x <= w ==> EscapeSpecials(w) == x + EscapeSpecials(w[|x|..])
  {
    if x != "" && w != "" {
      assert forall c <- x[1..] :: c in x;
      PlainPrefix(x[1..], w[1..]);
      var e := EscapeSpecials(w);
      assert !Special(x[0]);
      assert x <= w <==> x[0] == w[0] && x[1..] <= w[1..];
      if Special(w[0]) {
        assert e[0] == '\\';
      } else {
        assert e == [w[0]] + EscapeSpecials(w[1..]) && e[1..] == EscapeSpecials(w[1..]);
        assert x <= e <==> x[0] == w[0] && x[1..] <= e[1..];
        assert x <= w ==> w[1..][|x| - 1..] == w[|x|..] && x == [x[0]] + x[1..];
      }
    }
  }

  lemma RangePlain(lo: string, up: string)
    requires AllDigits(lo) && AllDigits(up)
    ensures Plain(lo + ".." + up + "]")
  {
  }

  // Escaping what stands behind a bracket makes no range and breaks none.
  lemma EscapedRange(w: string)
    ensures NumRangeAt("[" + EscapeSpecials(w), 0, ']').Some? <==> NumRangeAt("[" + w, 0, ']').Some?
  {
    var s, t := "[" + EscapeSpecials(w), "[" + w;
    assert s[1..] == EscapeSpecials(w) && t[1..] == w;
    if NumRangeAt(s, 0, ']').Some? {
      var lo, up := RangeRead(s, 0, ']');
      RangePlain(lo, up);
      PlainPrefix(lo + ".." + up + "]", w);
      RangeReads(t, 0, ']', lo, up);
    }
    if NumRangeAt(t, 0, ']').Some? {
      var lo, up := RangeRead(t, 0, ']');
      RangePlain(lo, up);
      PlainPrefix(lo + ".." + up + "]", w);
      RangeReads(s, 0, ']', lo, up);
    }
  }

  // The first bracket that begins a numeric range, or the length of the text.
  function FirstRange(w: string): (m: nat)
    ensures m <= |w|
  {
    if w == "" then 0
    else if w[0] == '[' && NumRangeAt(w, 0, ']').Some? then 0
    else 1 + FirstRange(w[1..])
  }

  predicate NoRangeIn(w: string) {
    forall k :: 0 <= k < |w| && w[k] == '[' ==> NumRangeAt(w, k, ']').None?
  }

  lemma {:induction false} FirstRangeIs(w: string)
    ensures forall k :: 0 <= k < FirstRange(w) && w[k] == '[' ==> NumRangeAt(w, k, ']').None?
    ensures FirstRange(w) < |w| ==> w[FirstRange(w)] == '[' && NumRangeAt(w, FirstRange(w), ']').Some?
  {
    if w != "" && !(w[0] == '[' && NumRangeAt(w, 0, ']').Some?) {
      FirstRangeIs(w[1..]);
      forall k | 0 < k < |w|
        ensures NumRangeAt(w, k, ']').Some? <==> NumRangeAt(w[1..], k - 1, ']').Some?
      {
        SameBehind(w, k, w[1..], k - 1, ']');
      }
    }
  }

  lemma BracketBehind(next: string, w: string)
    requires w != "" && w[0] == '[' && next != ""
    ensures NumRangeAt(next + EscapeSpecials(w[1..]), |next| - 1, ']').Some? <==> NumRangeAt(w, 0, ']').Some?
  {
    hide NumRangeAt, EscapeSpecials;
    var s, rest := next + EscapeSpecials(w[1..]), EscapeSpecials(w[1..]);
    assert s[|next|..] == rest == ("[" + rest)[1..];
    SameBehind(s, |next| - 1, "[" + rest, 0, ']');
    EscapedRange(w[1..]);
    assert "[" + w[1..] == w;
  }

  lemma LiteralStep(before: string, w: string)
    requires w != ""
    ensures var s, next := before + EscapeSpecials(w), before + Shown(w[0]);
            && s == next + EscapeSpecials(w[1..]) && (w[0] == '[' ==> |next| == |before| + 2)
            && LiteralAt(s, |before|)
               == if w[0] == '[' && NumRangeAt(w, 0, ']').Some? then Some(([w[0]], |next| - 1))
                  else WithText([w[0]], LiteralAt(s, |next|))
  {
    hide NumRangeAt, EscapeSpecials, LiteralAt, WithText;
    var s, next, rest := before + EscapeSpecials(w), before + Shown(w[0]), EscapeSpecials(w[1..]);
    EscapeFirst(w);
    assert s == next + rest && s[|next| - 1] == w[0] && s[|before|] == Shown(w[0])[0];
    TextMore("", s, |before|);
    TextNone(LiteralAt(s, |before|));
    assert "" + [w[0]] == [w[0]];
    if w[0] == '[' {
      BracketBehind(next, w);
    }
  }

  lemma NoLiteral(before: string)
    ensures LiteralAt(before, |before|) == Some(("", |before|)) && before + "" == before
  {
  }

  // A literal of escaped text goes on to the end, or up to the first bracket that begins a
  // range; that the bracket is escaped makes no difference.
  lemma {:induction false} SpecialsLiteral(before: string, w: string)
    ensures var m, s := FirstRange(w), before + EscapeSpecials(w);
            LiteralAt(s, |before|)
            == if m == |w| then Some((w, |s|))
               else Some((w[..m + 1], |before| + |EscapeSpecials(w[..m])| + 1))
    decreases |w|
  {
    hide NumRangeAt, LiteralAt, EscapeSpecials, Special;
    EscapeNone();
    if w == "" {
      NoLiteral(before);
    } else {
      var m, next := FirstRange(w), before + Shown(w[0]);
      LiteralStep(before, w);
      if m == 0 {
        assert w[..0] == "" && w[..1] == [w[0]];
      } else {
        SpecialsLiteral(next, w[1..]);
        EscapeFirst(w[..m]);
        assert w[..m][1..] == w[1..][..m - 1];
        assert m < |w| ==> [w[0]] + w[1..][..m] == w[..m + 1];
        assert [w[0]] + w[1..] == w;
      }
    }
  }

  // The elements of escaped text: one literal, or a literal up to a bracket, the range
  // there, and a literal from the closing bracket on.
  predicate SpecialsElems(elems: seq<Elem>, w: string) {
    var m := FirstRange(w);
    if w == "" then elems == []
    else if m == |w| then elems == [Literal(w)]
    else
      && |elems| >= 3 && elems[0] == Literal(w[..m + 1]) && elems[1].NumRange?
      && elems[2].Literal? && |elems[2].text| > 0 && elems[2].text[0] == ']'
  }

  predicate FirstLiteral(elems: seq<Elem>, w: string) {
    w != "" && |elems| > 0 && elems[0].Literal? && |elems[0].text| > 0 && elems[0].text[0] == w[0]
  }

  lemma ElemsBegin(elems: seq<Elem>, w: string)
    requires SpecialsElems(elems, w) && w != ""
    ensures FirstLiteral(elems, w)
  {
  }

  // Where the bracket at position m of w is in the escaped text, and what stands behind it.
  lemma BehindRange(before: string, w: string, m: nat, x: string)
    requires m < |w| && w[m] == '[' && x <= w[m + 1..] && Plain(x) && x != "" && x[|x| - 1] == ']'
    ensures var s, j := before + EscapeSpecials(w), |before| + |EscapeSpecials(w[..m])| + 1;
            && j + |x| < |s| && s[j] == '[' && x <= s[j + 1..]
            && s == s[..j + |x|] + EscapeSpecials("]" + w[m + 1..][|x|..])
  {
    hide EscapeSpecials, Plain;
    var v, u := w[..m], w[m + 1..];
    var s, j := before + EscapeSpecials(w), |before| + |EscapeSpecials(v)| + 1;
    EscapeSplit(v, w[m..]);
    assert v + w[m..] == w && w[m..][1..] == u && ("]" + u[|x|..])[1..] == u[|x|..];
    EscapeFirst(w[m..]);
    EscapeFirst("]" + u[|x|..]);
    PlainPrefix(x, u);
    Pieces(before, EscapeSpecials(v), x, EscapeSpecials(u[|x|..]));
  }

  lemma Pieces(a: string, b: string, x: string, c: string)
    requires x != "" && x[|x| - 1] == ']'
    ensures var s, j := a + (b + ("\\[" + (x + c))), |a| + |b| + 1;
            j + |x| < |s| && s[j] == '[' && x <= s[j + 1..] && s == s[..j + |x|] + ("]" + c)
  {
    var s, j := a + (b + ("\\[" + (x + c))), |a| + |b| + 1;
    assert s[j + 1..] == x + c;
    assert s[j + |x|..] == "]" + c;
  }

  // The literal that ends with the bracket, and the range behind it.
  lemma BracketTokens(before: string, w: string, m: nat, lo: string, up: string, dotted: bool)
    requires m == FirstRange(w) < |w| && w[m] == '[' && ReadsRange(w, m, ']', lo, up)
    ensures var s, j, n := before + EscapeSpecials(w), |before| + |EscapeSpecials(w[..m])| + 1, |lo| + |up| + 3;
            && |before| < |s| && j + n < |s| && n <= |w[m + 1..]|
            && TokenAt(s, |before|, dotted, false) == Token(Literal(w[..m + 1]), j)
            && TokenAt(s, j, dotted, true) == Token(NumRange(Bound(lo), Bound(up)), j + n)
            && s == s[..j + n] + EscapeSpecials("]" + w[m + 1..][n..])
  {
    hide FirstRange, NumRangeAt, LiteralAt, Bound, EscapeSpecials, Plain, AllDigits;
    var s, j, x := before + EscapeSpecials(w), |before| + |EscapeSpecials(w[..m])| + 1, lo + ".." + up + "]";
    RangePlain(lo, up);
    BehindRange(before, w, m, x);
    RangeReads(s, j, ']', lo, up);
    SpecialsLiteral(before, w);
    FirstSpecial(before, w);
  }

  lemma FirstSpecial(before: string, w: string)
    requires w != ""
    ensures var s := before + EscapeSpecials(w); |before| < |s| && s[|before|] == if Special(w[0]) then '\\' else w[0]
  {
  }

  lemma {:induction false} SpecialsTokens(before: string, w: string, dotted: bool)
    ensures var r := Tokens(before + EscapeSpecials(w), |before|, dotted, false);
            r.Elems? && SpecialsElems(r.elems, w)
    decreases |w|
  {
    hide FirstRange, NumRangeAt, LiteralAt, EscapeSpecials, ReadsRange, Tokens;
    var s, m := before + EscapeSpecials(w), FirstRange(w);
    if w == "" {
      NoTokens(before, dotted);
    } else if m == |w| {
      OneToken(before, w, dotted);
    } else {
      FirstRangeIs(w);
      var lo, up := RangeRead(w, m, ']');
      BracketTokens(before, w, m, lo, up, dotted);
      var j, n := |before| + |EscapeSpecials(w[..m])| + 1, |lo| + |up| + 3;
      var rest := "]" + w[m + 1..][n..];
      SpecialsTokens(s[..j + n], rest, dotted);
      ElemsBegin(Tokens(s, j + n, dotted, false).elems, rest);
      TokenThen(s, j, dotted, true, NumRange(Bound(lo), Bound(up)), j + n);
      TokenThen(s, |before|, dotted, false, Literal(w[..m + 1]), j);
    }
  }

  lemma NoTokens(before: string, dotted: bool)
    ensures Tokens(before + EscapeSpecials(""), |before|, dotted, false) == Elems([])
  {
  }

  lemma OneToken(before: string, w: string, dotted: bool)
    requires w != "" && FirstRange(w) == |w|
    ensures Tokens(before + EscapeSpecials(w), |before|, dotted, false) == Elems([Literal(w)])
  {
    hide FirstRange, LiteralAt, EscapeSpecials;
    SpecialsLiteral(before, w);
    FirstSpecial(before, w);
    LastToken(before + EscapeSpecials(w), |before|, dotted, false, Literal(w));
  }

  // A text whose special characters are escaped matches itself if and only if none of its
  // brackets begins what reads as a numeric range; then nothing else matches it either.
  lemma EscapeSpecialsMatches(w: string, dotted: bool, line: string)
    ensures Compile(EscapeSpecials(w), dotted, true).Elems?
    ensures Accepts(Compile(EscapeSpecials(w), dotted, true).elems, w) <==> NoRangeIn(w)
    ensures NoRangeIn(w) ==> (Accepts(Compile(EscapeSpecials(w), dotted, true).elems, line) <==> line == w)
  {
    hide FirstRange, NumRangeAt, EscapeSpecials, Tokens, Accepts;
    SpecialsTokens("", w, dotted);
    assert "" + EscapeSpecials(w) == EscapeSpecials(w);
    var elems, m := Tokens(EscapeSpecials(w), 0, dotted, false).elems, FirstRange(w);
    FirstRangeIs(w);
    if w == "" {
      AcceptsNone(w);
      AcceptsNone(line);
    } else if m == |w| {
      TrailingLiteral(w, w);
      TrailingLiteral(w, line);
    } else {
      RangeRefused(elems, w, m);
    }
  }

  // The range would have to match the number before the dots, and the next literal the dots.
  lemma RangeRefused(elems: seq<Elem>, w: string, m: nat)
    requires m < |w| && w[m] == '[' && NumRangeAt(w, m, ']').Some?
    requires |elems| >= 3 && elems[0] == Literal(w[..m + 1]) && elems[1].NumRange? && elems[2].Literal?
    requires |elems[2].text| > 0 && elems[2].text[0] == ']'
    ensures !Accepts(elems, w)
  {
    hide Accepts, InRange, Number, AllDigits;
    var pattern := elems + [End];
    assert Rest(pattern, 0) == elems && w[0..] == w;
    StepLiteral(pattern, 0, w, 0);
    StepNumRange(pattern, 1, w, m + 1);
    StepLiteral(pattern, 2, w, RunEnd(w, m + 1));
  }

  // A text in brackets whose bracket alone is escaped.
  lemma EscapedBracket(w: string, dotted: bool)
    requires |w| > 0 && w[0] == '[' && Plain(w[1..])
    ensures Compile("\\" + w, dotted, true).Elems?
    ensures Accepts(Compile("\\" + w, dotted, true).elems, w) <==> NumRangeAt(w, 0, ']').None?
  {
    EscapePlain(w[1..]);
    assert EscapeSpecials(w) == "\\" + w;
    EscapeSpecialsMatches(w, dotted, w);
    forall k | 0 < k < |w|
      ensures w[k] != '['
    {
      assert w[k] == w[1..][k - 1];
    }
  }

  // ----- A notation for lists of elements -----

  function Decimal(n: nat): string {
    var digit := ('0' as int + n % 10) as char;
    if n < 10 then [digit] else Decimal(n / 10) + [digit]
  }

  lemma {:induction false} DecimalReads(n: nat)
    ensures Decimal(n) != "" && AllDigits(Decimal(n)) && Number(Decimal(n)) == n
  {
    var s := Decimal(n);
    if n >= 10 {
      DecimalReads(n / 10);
      assert s[..|s| - 1] == Decimal(n / 10);
    } else {
      assert s[..|s| - 1] == "";
    }
  }

  function BoundText(b: int): string {
    if b < 0 then "" else Decimal(b)
  }

  lemma BoundReads(b: int)
    requires b >= -1
    ensures AllDigits(BoundText(b)) && Bound(BoundText(b)) == b
  {
    if b >= 0 {
      DecimalReads(b);
    }
  }

  function PairText(r: (char, char)): string {
    if r.0 == r.1 then [r.0] else [r.0, '-', r.1]
  }

  function PairsText(ranges: seq<(char, char)>): string {
    if |ranges| == 0 then "" else PairText(ranges[0]) + PairsText(ranges[1..])
  }

  function Show(e: Elem): string {
    match e
    case Literal(text) => Escaped(text)
    case AnyChar => "?"
    case CommonChar => "?"
    case Set(ranges) => "{" + PairsText(ranges) + "}"
    case NegSet(ranges) => "{^" + PairsText(ranges) + "}"
    case NumRange(lo, up) => "{" + BoundText(lo) + ".." + BoundText(up) + "}"
    case AnySeq => "**"
    case CommonSeq => "*"
    case End => ""
  }

  function ShowAll(elems: seq<Elem>): string {
    if |elems| == 0 then "" else Show(elems[0]) + ShowAll(elems[1..])
  }

  // A closing brace may only come first, and not at the end of a range of characters; a
  // single character is not followed by a dash, unless the dash is the last one.
  predicate PairsFit(ranges: seq<(char, char)>, first: bool) {
    if |ranges| == 0 then !first
    else
      var (a, b) := ranges[0];
      && (a == '}' ==> first) && (a != b ==> b != '}')
      && (a == b && |ranges| > 1 ==> ranges[1].0 != '-' || (|ranges| == 2 && ranges[1].1 == '-'))
      && PairsFit(ranges[1..], false)
  }

  // The elements that have a notation in the dialect.
  predicate Writable(e: Elem, dotted: bool) {
    match e
    case Literal(text) => text != ""
    case AnyChar => !dotted
    case CommonChar => dotted
    case Set(ranges) => PairsFit(ranges, true) && ranges[0].0 != '^' && NumRangeAt(Show(e), 0, '}').None?
    case NegSet(ranges) => PairsFit(ranges, true)
    case NumRange(lo, up) => lo >= -1 && up >= -1
    case AnySeq => true
    case CommonSeq => dotted
    case End => false
  }

  // Two literals would be read as one, and stars be taken in pairs from the left.
  predicate Separate(e: Elem, f: Elem) {
    !(e.Literal? && f.Literal?) && !(e.CommonSeq? && (f.CommonSeq? || f.AnySeq?))
  }

  predicate Writing(elems: seq<Elem>, dotted: bool) {
    |elems| == 0
    || (Writable(elems[0], dotted) && (|elems| > 1 ==> Separate(elems[0], elems[1])) && Writing(elems[1..], dotted))
  }

  lemma {:induction false} PairsRead(before: string, ranges: seq<(char, char)>, rest: string, first: bool)
    requires PairsFit(ranges, first)
    ensures RangesAt(before + PairsText(ranges) + "}" + rest, |before|, first)
            == Some((ranges, |before| + |PairsText(ranges)| + 1))
    decreases |ranges|
  {
    hide PairsText;
    if |ranges| == 0 {
      PairsEnd(before, rest);
    } else {
      var s, next := before + PairsText(ranges) + "}" + rest, before + PairText(ranges[0]);
      PairsBegin(ranges);
      Nested(before, PairText(ranges[0]), PairsText(ranges[1..]), "}" + rest);
      Nested(next, PairsText(ranges[1..]), "}", rest);
      Nested(before, PairsText(ranges), "}", rest);
      assert s == next + PairsText(ranges[1..]) + "}" + rest;
      PairsRead(next, ranges[1..], rest, false);
      FirstPair(before, ranges, rest);
      assert ranges == [ranges[0]] + ranges[1..];
    }
  }

  lemma Nested(a: string, b: string, c: string, d: string)
    ensures a + (b + c) + d == a + b + c + d == a + b + (c + d)
  {
  }

  lemma PairsEnd(before: string, rest: string)
    ensures PairsText([]) == ""
    ensures var end: nat := |before| + 1;
            RangesAt(before + PairsText([]) + "}" + rest, |before|, false) == Some(([], end))
  {
    assert (before + "" + "}" + rest)[|before|] == '}';
  }

  lemma PairsBegin(ranges: seq<(char, char)>)
    requires |ranges| > 0
    ensures PairsText(ranges) == PairText(ranges[0]) + PairsText(ranges[1..])
    ensures |ranges| == 1 ==> PairsText(ranges[1..]) == ""
  {
  }

  // The text behind the first pair begins with the next pair or with the closing brace.
  lemma SecondPair(ranges: seq<(char, char)>)
    requires |ranges| > 0 && PairsFit(ranges, ranges[0].0 == '}') && ranges[0].0 == ranges[0].1
    ensures var t := PairsText(ranges) + "}";
            |t| > 1 && t[0] == ranges[0].0 && (t[1] == '-' ==> |t| > 2 && t[2] == '}')
  {
    hide PairsText;
    PairsBegin(ranges);
    if |ranges| > 1 {
      PairsBegin(ranges[1..]);
      assert PairsText(ranges)[1] == ranges[1].0;
    }
  }

  // What the scan sees of the first pair.
  lemma FirstPair(before: string, ranges: seq<(char, char)>, rest: string)
    requires |ranges| > 0 && PairsFit(ranges, ranges[0].0 == '}')
    ensures var s, i := before + PairsText(ranges) + "}" + rest, |before|;
            && i < |s| && s[i] == ranges[0].0
            && (ranges[0].0 != ranges[0].1 ==> i + 2 < |s| && s[i + 1] == '-' && s[i + 2] == ranges[0].1)
            && (ranges[0].0 == ranges[0].1 ==> CharAt(s, i + 1) != '-' || i + 2 >= |s| || s[i + 2] == '}')
  {
    hide PairsText, PairsFit;
    var t := PairsText(ranges) + "}";
    PairsBegin(ranges);
    if ranges[0].0 == ranges[0].1 {
      SecondPair(ranges);
    }
    Within(before, t, rest);
    assert before + PairsText(ranges) + "}" + rest == before + t + rest;
  }

  lemma Within(before: string, t: string, rest: string)
    ensures forall k :: 0 <= k < |t| ==> (before + t + rest)[|before| + k] == t[k]
  {
  }

  lemma WritableSet(e: Elem, dotted: bool)
    requires (e.Set? || e.NegSet?) && Writable(e, dotted)
    ensures PairsFit(e.ranges, true) && |e.ranges| > 0 && (e.Set? ==> e.ranges[0].0 != '^')
    ensures PairsText(e.ranges) != "" && PairsText(e.ranges)[0] == e.ranges[0].0
  {
  }

  // The ranges of a set, and the character behind its opening brace.
  lemma SetParts(before: string, e: Elem, rest: string, dotted: bool)
    requires (e.Set? || e.NegSet?) && Writable(e, dotted)
    ensures var s, i := before + Show(e) + rest, |before|;
            && i + 2 < |s| && s[i] == '{' && (s[i + 1] == '^' <==> e.NegSet?)
            && RangesAt(s, if e.NegSet? then i + 2 else i + 1, true) == Some((e.ranges, i + |Show(e)|))
  {
    hide PairsText, RangesAt, PairsFit, NumRangeAt, Writable;
    WritableSet(e, dotted);
    var open := if e.NegSet? then "{^" else "{";
    Enclosed(before, open, PairsText(e.ranges), rest);
    PairsRead(before + open, e.ranges, rest, true);
  }

  lemma Enclosed(before: string, open: string, text: string, rest: string)
    requires text != "" && open != ""
    ensures var s, i := before + (open + text + "}") + rest, |before|;
            && s == before + open + text + "}" + rest && i + |open| + 1 < |s|
            && s[i] == open[0] && s[i + |open|] == text[0] && (|open| > 1 ==> s[i + 1] == open[1])
  {
  }

  // A set is read back from its text.
  lemma SetReads(before: string, e: Elem, rest: string, dotted: bool)
    requires (e.Set? || e.NegSet?) && Writable(e, dotted)
    ensures SetAt(before + Show(e) + rest, |before|) == Token(e, |before| + |Show(e)|)
  {
    hide RangesAt, Show, Writable, NumRangeAt;
    SetParts(before, e, rest, dotted);
  }

  // Nor is it taken for a range.
  lemma SetNoRange(before: string, e: Elem, rest: string, dotted: bool)
    requires (e.Set? || e.NegSet?) && Writable(e, dotted)
    ensures NumRangeAt(before + Show(e) + rest, |before|, '}').None?
  {
    assert NumRangeAt(Show(e), 0, '}').None? by {
      if e.NegSet? {
        assert Show(e)[1] == '^';
      }
    }
    SetEnds(e);
    NoRangeWithin(before, Show(e), rest);
  }

  lemma SetEnds(e: Elem)
    requires e.Set? || e.NegSet?
    ensures |Show(e)| > 1 && Show(e)[|Show(e)| - 1] == '}'
  {
  }

  // A text that does not read as a range up to its closing brace does not with more behind it.
  lemma NoRangeWithin(before: string, text: string, rest: string)
    requires |text| > 1 && text[|text| - 1] == '}' && NumRangeAt(text, 0, '}').None?
    ensures NumRangeAt(before + text + rest, |before|, '}').None?
  {
    var s, i := before + text + rest, |before|;
    if NumRangeAt(s, i, '}').Some? {
      var lo, up := RangeRead(s, i, '}');
      var x := lo + ".." + up + "}";
      assert s[i + 1..] == text[1..] + rest;
      BraceLast(lo, up);
      FirstBrace(x, text, rest);
      assert x <= text[1..];
      RangeReads(text, 0, '}', lo, up);
    }
  }

  lemma BraceLast(lo: string, up: string)
    requires AllDigits(lo) && AllDigits(up)
    ensures var x := lo + ".." + up + "}"; forall k :: 0 <= k < |x| - 1 ==> x[k] != '}'
  {
    DigitsAt(lo);
    DigitsAt(up);
  }

  lemma FirstBrace(x: string, text: string, rest: string)
    requires |text| > 1 && text[|text| - 1] == '}' && x <= text[1..] + rest
    requires forall k :: 0 <= k < |x| - 1 ==> x[k] != '}'
    ensures |x| < |text|
  {
    var k := |text| - 2;
    assert k < |x| ==> x[k] == (text[1..] + rest)[k];
  }

  lemma ShowsRange(before: string, e: Elem, rest: string)
    requires e.NumRange? && e.fromNum >= -1 && e.toNum >= -1
    ensures NumRangeAt(before + Show(e) + rest, |before|, '}')
            == Some((e.fromNum, e.toNum, |before| + |Show(e)| - 1))
  {
    hide NumRangeAt, BoundText, Bound, AllDigits;
    var s, i, lo, up := before + Show(e) + rest, |before|, BoundText(e.fromNum), BoundText(e.toNum);
    BoundReads(e.fromNum);
    BoundReads(e.toNum);
    assert s[i + 1..] == lo + ".." + up + "}" + rest;
    RangeReads(s, i, '}', lo, up);
  }

  // What may stand behind the text of e for it to end there.
  predicate Ends(e: Elem, rest: string) {
    (e.Literal? ==> EndsLiteral(rest)) && (e.CommonSeq? ==> rest == "" || rest[0] != '*')
  }

  lemma ShowToken(before: string, e: Elem, rest: string, dotted: bool, afterLiteral: bool)
    requires Writable(e, dotted) && Ends(e, rest)
    ensures Show(e) != ""
    ensures TokenAt(before + Show(e) + rest, |before|, dotted, afterLiteral) == Token(e, |before| + |Show(e)|)
  {
    hide SetAt, NumRangeAt, LiteralAt;
    var s, i := before + Show(e) + rest, |before|;
    if e.Literal? {
      EscapedLiteral(e.text, before, rest);
    } else if e.Set? || e.NegSet? {
      SetReads(before, e, rest, dotted);
      SetNoRange(before, e, rest, dotted);
    } else if e.NumRange? {
      ShowsRange(before, e, rest);
    } else {
      assert s[i..] == Show(e) + rest;
      assert CharAt(s, i + 1) == CharAt(s[i..], 1);
    }
    FirstOf(before, e, rest, dotted);
  }

  lemma FirstOf(before: string, e: Elem, rest: string, dotted: bool)
    requires Writable(e, dotted)
    ensures Show(e) != "" && (before + Show(e) + rest)[|before|] == Show(e)[0]
    ensures Show(e)[0] == if e.Literal? then '\\'
                          else if e.AnyChar? || e.CommonChar? then '?'
                          else if e.AnySeq? || e.CommonSeq? then '*' else '{'
  {
    hide PairsText, BoundText, NumRangeAt;
  }

  lemma EndsNext(elems: seq<Elem>, dotted: bool)
    requires |elems| > 0 && Writing(elems, dotted)
    ensures Ends(elems[0], ShowAll(elems[1..]))
  {
    if |elems| > 1 {
      var f := elems[1];
      assert Show(f) != "" && ShowAll(elems[1..])[0] == Show(f)[0];
    }
  }

  lemma {:induction false} ShowTokens(before: string, elems: seq<Elem>, dotted: bool, afterLiteral: bool)
    requires Writing(elems, dotted)
    ensures Tokens(before + ShowAll(elems), |before|, dotted, afterLiteral) == Elems(elems)
    decreases |elems|
  {
    var s := before + ShowAll(elems);
    if |elems| > 0 {
      var e, next := elems[0], before + Show(elems[0]);
      assert s == before + Show(e) + ShowAll(elems[1..]) == next + ShowAll(elems[1..]);
      EndsNext(elems, dotted);
      ShowToken(before, e, ShowAll(elems[1..]), dotted, afterLiteral);
      ShowTokens(next, elems[1..], dotted, e.Literal?);
      TokenThen(s, |before|, dotted, afterLiteral, e, |next|);
      assert [e] + elems[1..] == elems;
    }
  }

  // The tokenizer reads the notation of a list of elements as that list.
  lemma ShowParses(elems: seq<Elem>, dotted: bool)
    requires Writing(elems, dotted)
    ensures Compile(ShowAll(elems), dotted, true) == Elems(elems)
    ensures Compile(ShowAll(elems), dotted, false) == Elems(Widened(elems))
  {
    ShowTokens("", elems, dotted, false);
    assert "" + ShowAll(elems) == ShowAll(elems);
  }

  // ----- The notation without escapes -----

  // Literals stand for themselves; a number range between a literal that ends in an opening
  // bracket and one that begins with the closing one is written between these.
  function WriteAll(elems: seq<Elem>, dotted: bool): string {
    if |elems| == 0 then ""
    else if Bracketed(elems) then elems[0].text + RangeText(elems[1]) + WriteAll(elems[2..], dotted)
    else Write(elems[0], dotted) + WriteAll(elems[1..], dotted)
  }

  function Write(e: Elem, dotted: bool): string {
    match e
    case Literal(text) => text
    case AnySeq => if dotted then "**" else "*"
    case _ => Show(e)
  }

  function RangeText(e: Elem): string
    requires e.NumRange?
  {
    BoundText(e.fromNum) + ".." + BoundText(e.toNum)
  }

  predicate Bracketed(elems: seq<Elem>) {
    && |elems| >= 3 && elems[0].Literal? && elems[1].NumRange? && elems[2].Literal?
    && |elems[0].text| > 0 && elems[0].text[|elems[0].text| - 1] == '['
    && |elems[2].text| > 0 && elems[2].text[0] == ']'
  }

  // A text that needs no escapes: no wildcards, and no brackets that begin a range.
  predicate NeedsNoEscape(text: string) {
    (forall c <- text :: c != '?' && c != '*' && c != '{' && c != '\\') && NoRangeIn(text)
  }

  predicate PlainlyWritable(e: Elem, dotted: bool) {
    if e.Literal? then e.text != "" && NeedsNoEscape(e.text) else Writable(e, dotted)
  }

  // Two literals would be read as one, and a single star and another as a double one.
  predicate Parted(e: Elem, f: Elem, dotted: bool) {
    && !(e.Literal? && f.Literal?)
    && (e.CommonSeq? || (e.AnySeq? && !dotted) ==> !f.CommonSeq? && !f.AnySeq?)
  }

  // The lists that have such a notation.
  predicate PlainWriting(elems: seq<Elem>, dotted: bool) {
    if |elems| == 0 then true
    else if Bracketed(elems) then
      && NeedsNoEscape(elems[0].text[..|elems[0].text| - 1])
      && elems[1].fromNum >= -1 && elems[1].toNum >= -1 && PlainWriting(elems[2..], dotted)
    else
      && PlainlyWritable(elems[0], dotted) && (|elems| > 1 ==> Parted(elems[0], elems[1], dotted))
      && PlainWriting(elems[1..], dotted)
  }

  // The scan of a literal goes on over characters that are not special and brackets that
  // begin no range.
  predicate Unmarked(s: string, k: nat)
    requires k < |s|
  {
    && s[k] != '?' && s[k] != '*' && s[k] != '{' && s[k] != '\\'
    && (s[k] == '[' ==> NumRangeAt(s, k, ']').None?)
  }

  lemma {:induction false} PlainScan(s: string, i: nat, j: nat)
    requires i <= j <= |s| && forall k :: i <= k < j ==> Unmarked(s, k)
    ensures LiteralAt(s, i) == WithText(s[i..j], LiteralAt(s, j))
    decreases j - i
  {
    hide LiteralAt, NumRangeAt;
    if i == j {
      TextNone(LiteralAt(s, i));
      assert s[i..j] == "";
    } else {
      assert Unmarked(s, i);
      PlainScan(s, i + 1, j);
      OneMore(s, i, j);
    }
  }

  lemma TextJoined(a: string, b: string, r: Option<(string, nat)>)
    ensures WithText(a, WithText(b, r)) == WithText(a + b, r)
  {
    if r.Some? {
      assert a + (b + r.value.0) == a + b + r.value.0;
    }
  }

  lemma OneMore(s: string, i: nat, j: nat)
    requires i < j <= |s| && Unmarked(s, i)
    requires LiteralAt(s, i + 1) == WithText(s[i + 1..j], LiteralAt(s, j))
    ensures LiteralAt(s, i) == WithText(s[i..j], LiteralAt(s, j))
  {
    hide LiteralAt, NumRangeAt, WithText;
    TextMore("", s, i);
    TextNone(LiteralAt(s, i));
    assert s[i..j] == [s[i]] + s[i + 1..j];
    assert "" + [s[i]] == [s[i]];
    TextJoined([s[i]], s[i + 1..j], LiteralAt(s, j));
  }

  predicate RangeChar(c: char) {
    IsDigit(c) || c == '.' || c == ']'
  }

  predicate OfRangeChars(x: string) {
    forall c <- x :: RangeChar(c)
  }

  lemma RangeChars(lo: string, up: string)
    requires AllDigits(lo) && AllDigits(up)
    ensures OfRangeChars(lo + ".." + up + "]")
  {
  }

  lemma EndsWithin(x: string, a: string, rest: string)
    requires x <= a + rest && OfRangeChars(x) && (rest == "" || !RangeChar(rest[0]))
    ensures x <= a
  {
    hide OfRangeChars;
    if |a| < |x| {
      GoesOn(x, a, rest);
      assert false;
    }
  }

  lemma GoesOn(x: string, a: string, rest: string)
    requires x <= a + rest && |a| < |x| && (rest == "" || !RangeChar(rest[0]))
    ensures !OfRangeChars(x)
  {
    assert x[|a|] == (a + rest)[|a|] && x[|a|] in x;
  }

  // No range begins in a text if none does without what stands behind it.
  lemma NoRangeAhead(before: string, text: string, rest: string, k: nat)
    requires k < |text| && text[k] == '[' && NumRangeAt(text, k, ']').None?
    requires rest == "" || !RangeChar(rest[0])
    ensures NumRangeAt(before + text + rest, |before| + k, ']').None?
  {
    var s := before + text + rest;
    if NumRangeAt(s, |before| + k, ']').Some? {
      var lo, up := RangeRead(s, |before| + k, ']');
      assert s[|before| + k + 1..] == text[k + 1..] + rest;
      RangeChars(lo, up);
      EndsWithin(lo + ".." + up + "]", text[k + 1..], rest);
      RangeReads(text, k, ']', lo, up);
    }
  }

  lemma PlainUnmarked(before: string, text: string, rest: string)
    requires NeedsNoEscape(text) && (rest == "" || !RangeChar(rest[0]))
    ensures var s := before + text + rest;
            forall k :: |before| <= k < |before| + |text| ==> Unmarked(s, k)
  {
    hide NumRangeAt;
    var s := before + text + rest;
    forall k | |before| <= k < |before| + |text|
      ensures Unmarked(s, k)
    {
      var c := text[k - |before|];
      assert s[k] == c && c in text;
      if c == '[' {
        NoRangeAhead(before, text, rest, k - |before|);
      }
    }
  }

  // A literal without escapes is read up to the next element.
  lemma PlainToken(before: string, text: string, rest: string)
    requires text != "" && NeedsNoEscape(text) && EndsLiteral(rest)
    ensures LiteralAt(before + text + rest, |before|) == Some((text, |before| + |text|))
  {
    hide NumRangeAt, NeedsNoEscape;
    var s := before + text + rest;
    PlainUnmarked(before, text, rest);
    PlainScan(s, |before|, |before| + |text|);
    Ending(before + text, rest);
    assert s[|before|..|before| + |text|] == text && text + "" == text;
  }

  lemma Ending(before: string, rest: string)
    requires EndsLiteral(rest)
    ensures LiteralAt(before + rest, |before|) == Some(("", |before|))
  {
  }

  lemma Regrouped(before: string, u: string, r: string, rest: string)
    ensures var s, j := before + (u + "[") + r + rest, |before| + |u|;
            && s == before + u + ("[" + (r + rest)) && s[j] == '[' && s[j + 1..] == r + rest
            && s[|before|..j] == u
  {
  }

  lemma AtBracket(s: string, j: nat)
    requires j < |s| && s[j] == '[' && NumRangeAt(s, j, ']').Some?
    ensures LiteralAt(s, j) == Some(("[", j))
  {
  }

  lemma BracketRange(s: string, j: nat, e: Elem, rest: string)
    requires e.NumRange? && e.fromNum >= -1 && e.toNum >= -1
    requires j < |s| && s[j + 1..] == RangeText(e) + rest && rest != "" && rest[0] == ']'
    ensures NumRangeAt(s, j, ']') == Some((e.fromNum, e.toNum, j + |RangeText(e)| + 1))
  {
    hide NumRangeAt, BoundText, Bound, AllDigits;
    var lo, up := BoundText(e.fromNum), BoundText(e.toNum);
    BoundReads(e.fromNum);
    BoundReads(e.toNum);
    assert lo + ".." + up + "]" <= s[j + 1..] by {
      assert s[j + 1..][..|RangeText(e)| + 1] == RangeText(e) + "]";
    }
    RangeReads(s, j, ']', lo, up);
  }

  // A literal that ends in the bracket of a range is read up to this bracket.
  lemma BracketLiteral(before: string, u: string, s: string, j: nat, rest: string)
    requires NeedsNoEscape(u) && s == before + u + rest && j == |before| + |u| && rest != "" && rest[0] == '['
    requires NumRangeAt(s, j, ']').Some?
    ensures LiteralAt(s, |before|) == Some((u + "[", j))
  {
    hide NumRangeAt, LiteralAt, NeedsNoEscape, Unmarked;
    PlainUnmarked(before, u, rest);
    PlainScan(s, |before|, j);
    AtBracket(s, j);
    assert s[|before|..j] == u;
  }

  lemma BracketStart(s: string, i: nat, j: nat, text: string, dotted: bool)
    requires i < |s| && text != "" && s[i] == text[0]
    requires text[|text| - 1] == '[' && NeedsNoEscape(text[..|text| - 1]) && LiteralAt(s, i) == Some((text, j))
    ensures TokenAt(s, i, dotted, false) == Token(Literal(text), j)
  {
    hide NumRangeAt, LiteralAt;
    var u := text[..|text| - 1];
    assert u != "" ==> text[0] in u;
  }

  // The two elements of a bracketed range.
  lemma BracketedTokens(before: string, text: string, e: Elem, rest: string, dotted: bool)
    requires text != "" && text[|text| - 1] == '[' && NeedsNoEscape(text[..|text| - 1])
    requires e.NumRange? && e.fromNum >= -1 && e.toNum >= -1 && rest != "" && rest[0] == ']'
    ensures var s, j := before + text + RangeText(e) + rest, |before| + |text| - 1;
            && j + |RangeText(e)| + 1 < |s|
            && TokenAt(s, |before|, dotted, false) == Token(Literal(text), j)
            && TokenAt(s, j, dotted, true) == Token(e, j + |RangeText(e)| + 1)
  {
    hide NumRangeAt, LiteralAt, RangeText, NeedsNoEscape, TokenAt;
    var s, u, j := before + text + RangeText(e) + rest, text[..|text| - 1], |before| + |text| - 1;
    assert text == u + "[";
    Regrouped(before, u, RangeText(e), rest);
    BracketRange(s, j, e, rest);
    BracketLiteral(before, u, s, j, "[" + (RangeText(e) + rest));
    Joined(before + text, RangeText(e), rest);
    Starting(before, text, RangeText(e) + rest);
    BracketStart(s, |before|, j, text, dotted);
    RangeToken(s, j, e, dotted);
  }

  lemma RangeToken(s: string, j: nat, e: Elem, dotted: bool)
    requires j < |s| && s[j] == '[' && e.NumRange?
    requires NumRangeAt(s, j, ']') == Some((e.fromNum, e.toNum, j + |RangeText(e)| + 1))
    ensures TokenAt(s, j, dotted, true) == Token(e, j + |RangeText(e)| + 1)
  {
    hide NumRangeAt, RangeText;
  }

  lemma Starting(before: string, text: string, rest: string)
    requires text != ""
    ensures var s := before + text + rest; |before| < |s| && s[|before|] == text[0]
  {
  }

  // One element, when it is not the literal before a bracketed range.
  lemma WriteToken(before: string, e: Elem, rest: string, dotted: bool, afterLiteral: bool)
    requires PlainlyWritable(e, dotted) && (e.Literal? ==> !afterLiteral && EndsLiteral(rest))
    requires e.CommonSeq? || (e.AnySeq? && !dotted) ==> rest == "" || rest[0] != '*'
    ensures Write(e, dotted) != ""
    ensures TokenAt(before + Write(e, dotted) + rest, |before|, dotted, afterLiteral)
            == Token(e, |before| + |Write(e, dotted)|)
  {
    hide NumRangeAt, SetAt;
    if e.Literal? {
      PlainToken(before, e.text, rest);
      assert (before + e.text + rest)[|before|] == e.text[0] && e.text[0] in e.text;
    } else if e.AnySeq? && !dotted {
      assert (before + "*" + rest)[|before|..] == "*" + rest;
    } else {
      ShowToken(before, e, rest, dotted, afterLiteral);
    }
  }

  // What stands behind an element begins with the text of the next one.
  lemma NextText(elems: seq<Elem>, dotted: bool)
    requires |elems| > 0 && PlainWriting(elems, dotted) && (elems[0].Literal? ==> elems[0].text != "")
    ensures WriteAll(elems, dotted) != ""
    ensures WriteAll(elems, dotted)[0] == if elems[0].Literal? then elems[0].text[0] else Show(elems[0])[0]
    ensures !elems[0].Literal? ==> Writable(elems[0], dotted)
  {
    if !Bracketed(elems) && !elems[0].Literal? {
      FirstOf("", elems[0], "", dotted);
    }
  }

  lemma NextParted(elems: seq<Elem>, dotted: bool)
    requires |elems| > 0 && PlainWriting(elems, dotted) && !Bracketed(elems)
    ensures var rest := WriteAll(elems[1..], dotted);
            && (elems[0].Literal? ==> EndsLiteral(rest))
            && (elems[0].CommonSeq? || (elems[0].AnySeq? && !dotted) ==> rest == "" || rest[0] != '*')
  {
    if |elems| > 1 {
      var next := elems[1..];
      LiteralText(next, dotted);
      NextText(next, dotted);
      if !next[0].Literal? {
        FirstOf("", next[0], "", dotted);
      } else {
        NoStar(next, dotted);
      }
    }
  }

  lemma LiteralText(elems: seq<Elem>, dotted: bool)
    requires |elems| > 0 && PlainWriting(elems, dotted)
    ensures elems[0].Literal? ==> elems[0].text != ""
  {
  }

  lemma NoStar(elems: seq<Elem>, dotted: bool)
    requires |elems| > 0 && PlainWriting(elems, dotted) && elems[0].Literal? && elems[0].text != ""
    ensures elems[0].text[0] != '*'
  {
    var text := elems[0].text;
    if Bracketed(elems) {
      var u := text[..|text| - 1];
      assert u != "" ==> text[0] in u;
    } else {
      assert text[0] in text;
    }
  }

  lemma {:induction false} WriteTokens(before: string, elems: seq<Elem>, dotted: bool, afterLiteral: bool)
    requires PlainWriting(elems, dotted) && (|elems| > 0 && elems[0].Literal? ==> !afterLiteral)
    ensures Tokens(before + WriteAll(elems, dotted), |before|, dotted, afterLiteral) == Elems(elems)
    decreases |elems|
  {
    hide WriteAll, PlainWriting, TokenAt, Tokens, Write, PlainlyWritable, Bracketed, NumRangeAt;
    WriteStep(elems, dotted);
    PlainStep(elems, dotted);
    if |elems| == 0 {
      Nothing(before, dotted, afterLiteral);
    } else if Bracketed(elems) {
      WriteBracketed(before, elems, dotted);
    } else {
      var e, next, rest := elems[0], before + Write(elems[0], dotted), WriteAll(elems[1..], dotted);
      NextParted(elems, dotted);
      WriteToken(before, e, rest, dotted, afterLiteral);
      WriteTokens(next, elems[1..], dotted, e.Literal?);
      assert before + (Write(e, dotted) + rest) == next + rest;
      assert before + Write(e, dotted) + rest == next + rest;
      TokenThen(next + rest, |before|, dotted, afterLiteral, e, |next|);
      assert [e] + elems[1..] == elems;
    }
  }

  lemma Nothing(before: string, dotted: bool, afterLiteral: bool)
    ensures WriteAll([], dotted) == "" && before + "" == before
    ensures Tokens(before, |before|, dotted, afterLiteral) == Elems([])
  {
  }

  lemma WriteStep(elems: seq<Elem>, dotted: bool)
    ensures |elems| > 0 && Bracketed(elems)
            ==> |elems| >= 3 && elems[0].Literal? && elems[1].NumRange?
                && WriteAll(elems, dotted) == elems[0].text + RangeText(elems[1]) + WriteAll(elems[2..], dotted)
    ensures |elems| > 0 && !Bracketed(elems)
            ==> WriteAll(elems, dotted) == Write(elems[0], dotted) + WriteAll(elems[1..], dotted)
  {
  }

  lemma PlainStep(elems: seq<Elem>, dotted: bool)
    requires PlainWriting(elems, dotted)
    ensures |elems| > 0 && Bracketed(elems)
            ==> |elems| >= 3 && elems[0].Literal? && elems[0].text != "" && elems[2].Literal?
                && elems[0].text[|elems[0].text| - 1] == '['
                && NeedsNoEscape(elems[0].text[..|elems[0].text| - 1])
                && elems[1].NumRange? && elems[1].fromNum >= -1 && elems[1].toNum >= -1
                && elems[2].text != "" && elems[2].text[0] == ']'
                && PlainWriting(elems[2..], dotted)
    ensures |elems| > 0 && !Bracketed(elems)
            ==> PlainlyWritable(elems[0], dotted) && PlainWriting(elems[1..], dotted)
                && (|elems| > 1 && elems[0].Literal? ==> !elems[1].Literal?)
  {
  }

  lemma {:induction false} WriteBracketed(before: string, elems: seq<Elem>, dotted: bool)
    requires |elems| > 0 && PlainWriting(elems, dotted) && Bracketed(elems)
    ensures Tokens(before + WriteAll(elems, dotted), |before|, dotted, false) == Elems(elems)
    decreases |elems|, 0
  {
    hide WriteAll, PlainWriting, TokenAt, Tokens, Bracketed, NeedsNoEscape, RangeText, NumRangeAt;
    WriteStep(elems, dotted);
    PlainStep(elems, dotted);
    var text, e, rest := elems[0].text, elems[1], WriteAll(elems[2..], dotted);
    NextText(elems[2..], dotted);
    BracketedTokens(before, text, e, rest, dotted);
    var next := before + text + RangeText(e);
    WriteTokens(next, elems[2..], dotted, false);
    var s := next + rest;
    assert before + (text + RangeText(e) + rest) == s;
    TokenThen(s, |before| + |text| - 1, dotted, true, e, |next|);
    TokenThen(s, |before|, dotted, false, Literal(text), |before| + |text| - 1);
    ThreeParts(elems, Literal(text), e);
  }

  lemma ThreeParts(elems: seq<Elem>, a: Elem, b: Elem)
    requires |elems| >= 2 && elems[0] == a && elems[1] == b
    ensures [a] + ([b] + elems[2..]) == elems
  {
  }

  // The tokenizer reads this notation too.
  lemma WriteParses(elems: seq<Elem>, dotted: bool)
    requires PlainWriting(elems, dotted)
    ensures Compile(WriteAll(elems, dotted), dotted, true) == Elems(elems)
    ensures Compile(WriteAll(elems, dotted), dotted, false) == Elems(Widened(elems))
  {
    WriteTokens("", elems, dotted, false);
    assert "" + WriteAll(elems, dotted) == WriteAll(elems, dotted);
  }

  // A number with these bounds, -1 standing for none.
  predicate NumberIn(digits: string, lo: int, up: int) {
    digits != "" && AllDigits(digits) && InRange(Number(digits), lo, up)
  }

  // A range in brackets matches exactly the numbers in it, in brackets.
  lemma BracketedNumber(lo: int, up: int, dotted: bool, line: string)
    requires lo >= -1 && up >= -1
    ensures var elems := [Literal("["), NumRange(lo, up), Literal("]")];
            && Compile("[" + BoundText(lo) + ".." + BoundText(up) + "]", dotted, true) == Elems(elems)
            && (Accepts(elems, line) <==> exists digits :: NumberIn(digits, lo, up) && line == "[" + digits + "]")
  {
    hide *;
    var elems := [Literal("["), NumRange(lo, up), Literal("]")];
    BracketsCompile(lo, up, dotted);
    BracketsAccept(elems, line);
    if Accepts(elems, line) {
      var digits := line[1..RunEnd(line, 1)];
      assert NumberIn(digits, lo, up) && line == "[" + digits + "]";
    }
    if digits :| NumberIn(digits, lo, up) && line == "[" + digits + "]" {
      NumberLine(digits, lo, up);
    }
  }

  lemma NumberLine(digits: string, lo: int, up: int)
    requires NumberIn(digits, lo, up)
    ensures var line, j := "[" + digits + "]", 1 + |digits|; RunEnd(line, 1) == j && line[1..j] == digits
  {
    hide Number, InRange;
    var line := "[" + digits + "]";
    DigitsAt(digits);
    assert forall k :: 1 <= k < 1 + |digits| ==> line[k] == digits[k - 1];
    RunUnique(line, 1, 1 + |digits|);
  }

  lemma BracketsCompile(lo: int, up: int, dotted: bool)
    requires lo >= -1 && up >= -1
    ensures Compile("[" + BoundText(lo) + ".." + BoundText(up) + "]", dotted, true)
            == Elems([Literal("["), NumRange(lo, up), Literal("]")])
  {
    var elems := [Literal("["), NumRange(lo, up), Literal("]")];
    var last := elems[2..];
    assert last == [Literal("]")] && last[1..] == [];
    assert "["[..0] == "" && NeedsNoEscape("") && NeedsNoEscape("]");
    assert PlainWriting(last, dotted) && WriteAll(last, dotted) == "]" + "";
    WriteParses(elems, dotted);
    hide *;
    WriteStep(elems, dotted);
    BracketsText(lo, up, dotted);
  }

  lemma BracketsText(lo: int, up: int, dotted: bool)
    ensures WriteAll([Literal("["), NumRange(lo, up), Literal("]")], dotted)
            == "[" + BoundText(lo) + ".." + BoundText(up) + "]"
  {
    var elems := [Literal("["), NumRange(lo, up), Literal("]")];
    assert Bracketed(elems) && elems[2..] == [Literal("]")] && [Literal("]")][1..] == [];
    WriteStep(elems, dotted);
    WriteStep([Literal("]")], dotted);
    hide WriteAll, BoundText;
    EmptyText(dotted);
    Spelled(BoundText(lo), BoundText(up));
  }

  lemma EmptyText(dotted: bool)
    ensures WriteAll([], dotted) == ""
  {
  }

  lemma Spelled(lo: string, up: string)
    ensures "[" + (lo + ".." + up) + ("]" + "") == "[" + lo + ".." + up + "]"
  {
  }

  lemma BracketsAccept(elems: seq<Elem>, line: string)
    requires |elems| == 3 && elems[0] == Literal("[") && elems[1].NumRange? && elems[2] == Literal("]")
    ensures Accepts(elems, line)
            <==> |line| > 0 && line[0] == '['
                 && var j := RunEnd(line, 1);
                    && NumberIn(line[1..j], elems[1].fromNum, elems[1].toNum)
                    && j + 1 == |line| && line[j] == ']'
  {
    hide Accepts, Number, InRange, RunEnd;
    var pattern := elems + [End];
    assert Rest(pattern, 0) == elems && line[0..] == line;
    StepLiteral(pattern, 0, line, 0);
    if |line| > 0 && line[0] == '[' {
      StepNumRange(pattern, 1, line, 1);
      var j := RunEnd(line, 1);
      StepLiteral(pattern, 2, line, j);
      if j < |line| {
        StepEnd(pattern, line, j + 1);
      }
    }
  }

  // Setting the pattern from one of the notations and matching decides what the elements say.
  method MatchWritten(m: PatternMatcher, elems: seq<Elem>, dotted: bool, plain: bool, line: string) returns (r: bool)
    requires if plain then PlainWriting(elems, dotted) else Writing(elems, dotted)
    modifies m
    ensures r <==> Accepts(elems, line)
  {
    hide *;
    var text;
    if plain {
      WriteParses(elems, dotted);
      text := WriteAll(elems, dotted);
    } else {
      ShowParses(elems, dotted);
      text := ShowAll(elems);
    }
    var status := m.SetPattern(text, dotted, true);
    r := m.Matches(line);
  }
}
