// Glob patterns: a tokenizer, and a backtracking matcher with shortcuts, against the
// declarative reading that a line splits into pieces matched by the pattern elements.
module PatternMatcher {

  import opened Texts
  import opened Wrappers

  datatype Elem =
    | Literal(text: string)
    | AnyChar
    | CommonChar
    | Set(ranges: seq<(char, char)>)
    | NegSet(ranges: seq<(char, char)>)
    | NumRange(fromNum: int, toNum: int)
    | AnySeq
    | CommonSeq
    | End

  // ----- Meaning -----

  predicate IsDigit(c: char) {
    '0' <= c <= '9'
  }

  predicate AllDigits(s: string) {
    forall c <- s :: IsDigit(c)
  }

  function Number(s: string): nat
    requires AllDigits(s)
  {
    if |s| == 0 then 0
    else
      assert s[|s| - 1] in s;
      10 * Number(s[..|s| - 1]) + (s[|s| - 1] as int - '0' as int)
  }

  predicate InSet(c: char, ranges: seq<(char, char)>) {
    exists r <- ranges :: r.0 <= c <= r.1
  }

  predicate InRange(num: int, lo: int, up: int) {
    !(lo >= 0 && num < lo) && !(up >= 0 && num > up)
  }

  // An element matches a piece of the line that is followed by rest.
  predicate Fits(e: Elem, piece: string, rest: string) {
    match e
    case Literal(text) => piece == text
    case AnyChar => |piece| == 1
    case CommonChar => |piece| == 1 && piece[0] != '.'
    case Set(ranges) => |piece| == 1 && InSet(piece[0], ranges)
    case NegSet(ranges) => |piece| == 1 && !InSet(piece[0], ranges)
    case NumRange(lo, up) =>
      |piece| > 0 && AllDigits(piece) && (|rest| > 0 ==> !IsDigit(rest[0])) && InRange(Number(piece), lo, up)
    case AnySeq => true
    case CommonSeq => '.' !in piece
    case End => false
  }

  // The line is the pieces in order, one for each element.
  predicate Splits(elems: seq<Elem>, pieces: seq<string>, line: string) {
    if |elems| == 0 then |pieces| == 0 && line == ""
    else
      && |pieces| > 0 && pieces[0] <= line
      && var rest := line[|pieces[0]|..];
      Fits(elems[0], pieces[0], rest) && Splits(elems[1..], pieces[1..], rest)
  }

  ghost predicate Accepts(elems: seq<Elem>, line: string) {
    exists pieces :: Splits(elems, pieces, line)
  }

  // One step of the reading: the first element takes n characters.
  ghost predicate Takes(elems: seq<Elem>, line: string, n: nat)
    requires |elems| > 0
  {
    n <= |line| && Fits(elems[0], line[..n], line[n..]) && Accepts(elems[1..], line[n..])
  }

  lemma AcceptsFirst(elems: seq<Elem>, line: string)
    requires |elems| > 0
    ensures Accepts(elems, line) <==> exists n: nat :: Takes(elems, line, n)
  {
    if Accepts(elems, line) {
      var pieces :| Splits(elems, pieces, line);
      var n := |pieces[0]|;
      assert line[..n] == pieces[0];
      assert Splits(elems[1..], pieces[1..], line[n..]);
      assert Takes(elems, line, n);
    }
    if n: nat :| Takes(elems, line, n) {
      var pieces :| Splits(elems[1..], pieces, line[n..]);
      var all := [line[..n]] + pieces;
      assert all[1..] == pieces && all[0] == line[..n];
      assert all[0] <= line && |all[0]| == n;
      assert Splits(elems, all, line);
    }
  }

  lemma AcceptsNone(line: string)
    ensures Accepts([], line) <==> line == ""
  {
    assert Splits([], [], "");
  }

  // An element with a single possible length either takes it or the line is refused.
  lemma OnlyLength(elems: seq<Elem>, line: string, n: nat)
    requires |elems| > 0 && n <= |line|
    requires forall m: nat :: m <= |line| && Fits(elems[0], line[..m], line[m..]) ==> m == n
    ensures Accepts(elems, line) <==> Takes(elems, line, n)
  {
    AcceptsFirst(elems, line);
  }

  lemma NoLength(elems: seq<Elem>, line: string)
    requires |elems| > 0
    requires forall m: nat :: m <= |line| ==> !Fits(elems[0], line[..m], line[m..])
    ensures !Accepts(elems, line)
  {
    AcceptsFirst(elems, line);
  }

  // ----- The digit run -----

  function RunEnd(s: string, i: nat): (j: nat)
    requires i <= |s|
    ensures i <= j <= |s|
    decreases |s| - i
  {
    if i < |s| && IsDigit(s[i]) then RunEnd(s, i + 1) else i
  }

  lemma {:induction false} RunIsMaximal(s: string, i: nat)
    requires i <= |s|
    ensures AllDigits(s[i..RunEnd(s, i)])
    ensures RunEnd(s, i) < |s| ==> !IsDigit(s[RunEnd(s, i)])
    decreases |s| - i
  {
    if i < |s| && IsDigit(s[i]) {
      RunIsMaximal(s, i + 1);
      assert s[i..RunEnd(s, i)] == [s[i]] + s[i + 1..RunEnd(s, i)];
    }
  }

  // A number takes the maximal run of digits and nothing else.
  lemma NumRangeLength(e: Elem, s: string, m: nat)
    requires e.NumRange? && m <= |s|
    ensures Fits(e, s[..m], s[m..])
            <==> m == RunEnd(s, 0) && m > 0 && AllDigits(s[..m]) && InRange(Number(s[..m]), e.fromNum, e.toNum)
  {
    var n := RunEnd(s, 0);
    RunIsMaximal(s, 0);
    assert s[0..n] == s[..n];
    DigitsAt(s[..n]);
    if AllDigits(s[..m]) {
      DigitsAt(s[..m]);
    }
    assert m < |s| ==> s[m..][0] == s[m];
    assert m < n ==> s[..n][m] == s[m];
    assert n < m ==> s[..m][n] == s[n];
  }

  lemma DigitsAt(s: string)
    requires AllDigits(s)
    ensures forall k :: 0 <= k < |s| ==> IsDigit(s[k])
  {
  }

  // ----- Matching -----

  // The elements up to the final End.
  predicate WellFormed(pattern: seq<Elem>) {
    |pattern| > 0 && pattern[|pattern| - 1] == End && forall k :: 0 <= k < |pattern| - 1 ==> pattern[k] != End
  }

  predicate EndsWith(s: string, suffix: string) {
    |s| >= |suffix| && s[|s| - |suffix|..] == suffix
  }

  function Rest(pattern: seq<Elem>, k: nat): seq<Elem>
    requires k < |pattern|
  {
    pattern[k..|pattern| - 1]
  }

  lemma RestStep(pattern: seq<Elem>, k: nat)
    requires k + 1 < |pattern|
    ensures |Rest(pattern, k)| > 0 && Rest(pattern, k)[0] == pattern[k] && Rest(pattern, k)[1..] == Rest(pattern, k + 1)
  {
  }

  // A trailing ** takes whatever is left.
  lemma TrailingAny(elems: seq<Elem>, line: string)
    requires elems == [AnySeq]
    ensures Accepts(elems, line)
  {
    assert line[|line|..] == "" && elems[1..] == [];
    AcceptsNone(line[|line|..]);
    assert Takes(elems, line, |line|);
    AcceptsFirst(elems, line);
  }

  // A trailing literal is the whole rest of the line.
  lemma TrailingLiteral(text: string, line: string)
    ensures Accepts([Literal(text)], line) <==> line == text
  {
    var elems := [Literal(text)];
    AcceptsFirst(elems, line);
    assert elems[1..] == [];
    forall n: nat | n <= |line|
      ensures Takes(elems, line, n) <==> line[..n] == text && n == |line|
    {
      AcceptsNone(line[n..]);
    }
    if line == text {
      assert line[..|line|] == line;
      assert Takes(elems, line, |line|);
    }
  }

  // After a trailing ** and a literal it is enough that the line ends in the literal.
  lemma TrailingAnyLiteral(text: string, line: string)
    ensures Accepts([AnySeq, Literal(text)], line) <==> EndsWith(line, text)
  {
    var elems := [AnySeq, Literal(text)];
    AcceptsFirst(elems, line);
    assert elems[1..] == [Literal(text)];
    forall n: nat | n <= |line|
      ensures Takes(elems, line, n) <==> line[n..] == text
    {
      TrailingLiteral(text, line[n..]);
    }
    if EndsWith(line, text) {
      assert Takes(elems, line, |line| - |text|);
    }
  }

  // A line accepted by elements that end in a literal ends in it.
  lemma {:induction false} EndsInLiteral(elems: seq<Elem>, line: string)
    requires |elems| > 0 && elems[|elems| - 1].Literal?
    requires Accepts(elems, line)
    ensures EndsWith(line, elems[|elems| - 1].text)
  {
    AcceptsFirst(elems, line);
    var n: nat :| Takes(elems, line, n);
    if |elems| == 1 {
      AcceptsNone(line[n..]);
      assert line[..n] == line;
    } else {
      EndsInLiteral(elems[1..], line[n..]);
    }
  }

  // What the matcher decides for one element at position i of the line.
  lemma StepOne(pattern: seq<Elem>, k: nat, line: string, i: nat)
    requires k + 1 < |pattern| && i <= |line|
    requires pattern[k].AnyChar? || pattern[k].CommonChar? || pattern[k].Set? || pattern[k].NegSet?
    ensures Accepts(Rest(pattern, k), line[i..])
            <==> i < |line| && Fits(pattern[k], [line[i]], "") && Accepts(Rest(pattern, k + 1), line[i + 1..])
  {
    RestStep(pattern, k);
    var elems, s := Rest(pattern, k), line[i..];
    if i == |line| {
      NoLength(elems, s);
    } else {
      OnlyLength(elems, s, 1);
      assert s[..1] == [line[i]] && s[1..] == line[i + 1..];
    }
  }

  lemma StepLiteral(pattern: seq<Elem>, k: nat, line: string, i: nat)
    requires k + 1 < |pattern| && i <= |line| && pattern[k].Literal?
    ensures var text := pattern[k].text;
            Accepts(Rest(pattern, k), line[i..])
            <==> text <= line[i..] && Accepts(Rest(pattern, k + 1), line[i + |text|..])
  {
    RestStep(pattern, k);
    var elems, s, n := Rest(pattern, k), line[i..], |pattern[k].text|;
    if n <= |s| {
      OnlyLength(elems, s, n);
      assert s[n..] == line[i + n..];
    } else {
      NoLength(elems, s);
    }
  }

  lemma StepNumRange(pattern: seq<Elem>, k: nat, line: string, i: nat)
    requires k + 1 < |pattern| && i <= |line| && pattern[k].NumRange?
    ensures var j := RunEnd(line, i);
            AllDigits(line[i..j])
            && (Accepts(Rest(pattern, k), line[i..])
                <==> i < j && InRange(Number(line[i..j]), pattern[k].fromNum, pattern[k].toNum)
                     && Accepts(Rest(pattern, k + 1), line[j..]))
  {
    RestStep(pattern, k);
    RunIsMaximal(line, i);
    var elems, s, n := Rest(pattern, k), line[i..], RunEnd(line, i) - i;
    RunShift(line, i);
    forall m: nat | m <= |s|
      ensures Fits(elems[0], s[..m], s[m..])
              <==> m == n && m > 0 && AllDigits(s[..m]) && InRange(Number(s[..m]), elems[0].fromNum, elems[0].toNum)
    {
      NumRangeLength(elems[0], s, m);
    }
    OnlyLength(elems, s, n);
    assert s[..n] == line[i..i + n] && s[n..] == line[i + n..];
  }

  lemma {:induction false} RunShift(line: string, i: nat)
    requires i <= |line|
    ensures RunEnd(line[i..], 0) == RunEnd(line, i) - i
  {
    RunShiftFrom(line, i, i);
  }

  lemma {:induction false} RunShiftFrom(line: string, i: nat, j: nat)
    requires i <= j <= |line|
    ensures RunEnd(line[i..], j - i) == RunEnd(line, j) - i
    decreases |line| - j
  {
    if j < |line| && IsDigit(line[j]) {
      RunShiftFrom(line, i, j + 1);
    }
  }

  // A sequence element takes any number of characters, or any number without a dot.
  lemma StepSequence(pattern: seq<Elem>, k: nat, line: string, i: nat)
    requires k + 1 < |pattern| && i <= |line|
    requires pattern[k].AnySeq? || pattern[k].CommonSeq?
    ensures Accepts(Rest(pattern, k), line[i..])
            <==> Accepts(Rest(pattern, k + 1), line[i..])
                 || (i < |line| && (pattern[k].CommonSeq? ==> line[i] != '.')
                     && Accepts(Rest(pattern, k), line[i + 1..]))
  {
    RestStep(pattern, k);
    var elems, s := Rest(pattern, k), line[i..];
    hide Accepts, Takes, Rest;
    TakesNone(elems, s);
    AcceptsFirst(elems, s);
    if i < |line| {
      var t := line[i + 1..];
      assert t == s[1..];
      AcceptsFirst(elems, t);
      TakesShift(elems, s);
    } else {
      NoMore(elems, s);
    }
  }

  lemma TakesNone(elems: seq<Elem>, s: string)
    requires |elems| > 0 && (elems[0].AnySeq? || elems[0].CommonSeq?)
    ensures Takes(elems, s, 0) <==> Accepts(elems[1..], s)
  {
    assert s[..0] == "" && s[0..] == s;
  }

  lemma NoMore(elems: seq<Elem>, s: string)
    requires |elems| > 0 && s == ""
    ensures forall n: nat :: Takes(elems, s, n) ==> n == 0
  {
  }

  lemma TakesMore(elems: seq<Elem>, s: string, n: nat)
    requires |elems| > 0 && (elems[0].AnySeq? || elems[0].CommonSeq?) && |s| > 0
    ensures Takes(elems, s, n + 1) <==> (elems[0].CommonSeq? ==> s[0] != '.') && Takes(elems, s[1..], n)
  {
    if n < |s| {
      assert s[..n + 1] == [s[0]] + s[1..][..n] && s[n + 1..] == s[1..][n..];
    }
  }

  lemma TakesShift(elems: seq<Elem>, s: string)
    requires |elems| > 0 && (elems[0].AnySeq? || elems[0].CommonSeq?) && |s| > 0
    ensures (exists n: nat :: Takes(elems, s, n))
            <==> Takes(elems, s, 0)
                 || ((elems[0].CommonSeq? ==> s[0] != '.') && exists n: nat :: Takes(elems, s[1..], n))
  {
    if n: nat :| Takes(elems, s[1..], n) {
      TakesMore(elems, s, n);
    }
    if n: nat :| Takes(elems, s, n) && n > 0 {
      TakesMore(elems, s, n - 1);
    }
  }

  lemma StepEnd(pattern: seq<Elem>, line: string, i: nat)
    requires |pattern| > 0 && i <= |line|
    ensures Accepts(Rest(pattern, |pattern| - 1), line[i..]) <==> i == |line|
  {
    assert Rest(pattern, |pattern| - 1) == [];
    AcceptsNone(line[i..]);
  }

  lemma ShortcutAny(pattern: seq<Elem>, k: nat, line: string)
    requires |pattern| >= 2 && k == |pattern| - 2 && pattern[k].AnySeq?
    ensures Accepts(Rest(pattern, k), line)
  {
    assert Rest(pattern, k) == [AnySeq];
    TrailingAny(Rest(pattern, k), line);
  }

  lemma ShortcutAnyLiteral(pattern: seq<Elem>, k: nat, line: string)
    requires |pattern| >= 3 && k == |pattern| - 3 && pattern[k].AnySeq? && pattern[k + 1].Literal?
    ensures Accepts(Rest(pattern, k), line) <==> EndsWith(line, pattern[k + 1].text)
  {
    assert Rest(pattern, k) == [AnySeq, Literal(pattern[k + 1].text)];
    TrailingAnyLiteral(pattern[k + 1].text, line);
  }

  // ----- Tokenizing -----

  datatype Status = Ok | UnmatchedBrace | RanOver

  datatype Scan = Token(elem: Elem, end: nat) | Bad(status: Status)

  datatype Parse = Elems(elems: seq<Elem>) | Failed(status: Status)

  // The number at position i, or -1 when there is no digit.
  function NumberAt(s: string, i: nat): int
    requires i <= |s|
  {
    RunIsMaximal(s, i);
    if RunEnd(s, i) == i then -1 else Number(s[i..RunEnd(s, i)])
  }

  // Reads n..m from after the opening character at i to the closing one.
  function NumRangeAt(s: string, i: nat, close: char): (r: Option<(int, int, nat)>)
    requires i < |s|
    ensures r.Some? ==> i + 2 < r.value.2 < |s|
  {
    var a := RunEnd(s, i + 1);
    if CharAt(s, a) != '.' || CharAt(s, a + 1) != '.' || close == '\0' then None
    else
      var b := RunEnd(s, a + 2);
      if CharAt(s, b) != close then None else Some((NumberAt(s, i + 1), NumberAt(s, a + 2), b))
  }

  // The text of a literal and where it ends; none when an escape is the last character,
  // as then the scan passes the end of the string.
  function LiteralAt(s: string, i: nat): (r: Option<(string, nat)>)
    requires i <= |s|
    ensures r.Some? ==> i <= r.value.1 <= |s|
    decreases |s| - i
  {
    if i == |s| || s[i] == '?' || s[i] == '{' || s[i] == '*' then Some(("", i))
    else
      var j := if s[i] == '\\' then i + 1 else i;
      if j == |s| then None
      else if s[j] == '[' && NumRangeAt(s, j, ']').Some? then Some(([s[j]], j))
      else
        var rest := LiteralAt(s, j + 1);
        if rest.None? then None else Some(([s[j]] + rest.value.0, rest.value.1))
  }

  // The ranges of a set from position i and where it ends; none without a closing brace.
  function RangesAt(s: string, i: nat, first: bool): (r: Option<(seq<(char, char)>, nat)>)
    ensures r.Some? ==> i < r.value.1 <= |s|
    decreases |s| - i
  {
    if i >= |s| then None
    else if s[i] == '}' && !first then Some(([], i + 1))
    else
      var wide := CharAt(s, i + 1) == '-' && i + 2 < |s| && s[i + 2] != '}';
      var rest := RangesAt(s, if wide then i + 3 else i + 1, false);
      if rest.None? then None
      else Some(([(s[i], if wide then s[i + 2] else s[i])] + rest.value.0, rest.value.1))
  }

  function SetAt(s: string, i: nat): (r: Scan)
    requires i < |s|
    ensures r.Token? ==> i < r.end <= |s| && (r.elem.Set? || r.elem.NegSet?)
  {
    var negated := CharAt(s, i + 1) == '^';
    match RangesAt(s, if negated then i + 2 else i + 1, true)
    case None => Bad(UnmatchedBrace)
    case Some(found) => Token(if negated then NegSet(found.0) else Set(found.0), found.1)
  }

  function LiteralToken(s: string, i: nat): (r: Scan)
    requires i <= |s|
    ensures r.Token? ==> i <= r.end <= |s| && r.elem.Literal?
  {
    match LiteralAt(s, i)
    case None => Bad(RanOver)
    case Some(found) => Token(Literal(found.0), found.1)
  }

  // The element at position i; a numeric range in brackets is one only after a literal.
  function TokenAt(s: string, i: nat, dotted: bool, afterLiteral: bool): (r: Scan)
    requires i < |s|
    ensures r.Token? ==> i <= r.end <= |s| && r.elem != End
    ensures r.Token? && r.end == i ==> r.elem.Literal? && !afterLiteral
    ensures r.Bad? ==> r.status != Ok
  {
    if s[i] == '?' then Token(if dotted then CommonChar else AnyChar, i + 1)
    else if s[i] == '[' then
      var range := NumRangeAt(s, i, ']');
      if !afterLiteral || range.None? then LiteralToken(s, i)
      else Token(NumRange(range.value.0, range.value.1), range.value.2)
    else if s[i] == '{' then
      var range := NumRangeAt(s, i, '}');
      if range.Some? then Token(NumRange(range.value.0, range.value.1), range.value.2 + 1) else SetAt(s, i)
    else if s[i] == '*' then
      if CharAt(s, i + 1) == '*' then Token(AnySeq, i + 2)
      else Token(if dotted then CommonSeq else AnySeq, i + 1)
    else LiteralToken(s, i)
  }

  function Tokens(s: string, i: nat, dotted: bool, afterLiteral: bool): (r: Parse)
    requires i <= |s|
    ensures r.Elems? ==> forall e <- r.elems :: e != End
    decreases |s| - i, if afterLiteral then 0 else 1
  {
    if i == |s| then Elems([])
    else
      match TokenAt(s, i, dotted, afterLiteral)
      case Bad(status) => Failed(status)
      case Token(e, end) =>
        match Tokens(s, end, dotted, e.Literal?)
        case Failed(status) => Failed(status)
        case Elems(rest) => Elems([e] + rest)
  }

  // For a substring match the pattern gets ** at both ends, unless it is there.
  function Widened(elems: seq<Elem>): (r: seq<Elem>)
    ensures |r| > 0 && r[0] == AnySeq && r[|r| - 1] == AnySeq
    ensures (forall e <- elems :: e != End) ==> forall e <- r :: e != End
  {
    var t := if |elems| == 0 || elems[|elems| - 1] != AnySeq then elems + [AnySeq] else elems;
    if t[0] != AnySeq then [AnySeq] + t else t
  }

  // The elements of a pattern, before the final End.
  function Compile(s: string, dotted: bool, fullString: bool): Parse {
    match Tokens(s, 0, dotted, false)
    case Failed(status) => Failed(status)
    case Elems(elems) => Elems(if fullString then elems else Widened(elems))
  }

  predicate ContainsWildcards(s: string) {
    '?' in s || '*' in s || '\\' in s || '{' in s || exists k :: 0 <= k < |s| - 1 && s[k] == '.' && s[k + 1] == '.'
  }

  predicate AfterLiteral(elems: seq<Elem>) {
    |elems| > 0 && elems[|elems| - 1].Literal?
  }

  // What is still to be read, after what has been read.
  function Extended(read: seq<Elem>, rest: Parse): Parse {
    match rest
    case Failed(status) => Failed(status)
    case Elems(elems) => Elems(read + elems)
  }

  lemma TokensBegin(s: string, dotted: bool)
    ensures Extended([], Tokens(s, 0, dotted, false)) == Tokens(s, 0, dotted, false)
  {
    var rest := Tokens(s, 0, dotted, false);
    if rest.Elems? {
      assert [] + rest.elems == rest.elems;
    }
  }

  lemma TokensEnd(s: string, read: seq<Elem>, dotted: bool)
    ensures Extended(read, Tokens(s, |s|, dotted, AfterLiteral(read))) == Elems(read)
  {
    assert Tokens(s, |s|, dotted, AfterLiteral(read)) == Elems([]);
    assert read + [] == read;
  }

  lemma EndAdded(elems: seq<Elem>)
    requires forall e <- elems :: e != End
    ensures WellFormed(elems + [End]) && Rest(elems + [End], 0) == elems
  {
    forall k | 0 <= k < |elems|
      ensures (elems + [End])[k] != End
    {
      assert elems[k] in elems;
    }
  }

  function WithText(text: string, r: Option<(string, nat)>): Option<(string, nat)> {
    if r.None? then None else Some((text + r.value.0, r.value.1))
  }

  lemma TextNone(r: Option<(string, nat)>)
    ensures WithText("", r) == r
  {
    if r.Some? {
      assert "" + r.value.0 == r.value.0;
    }
  }

  // One character of a literal moves from what is to be read to what has been read.
  lemma TextMore(text: string, s: string, i: nat)
    requires i < |s| && s[i] != '?' && s[i] != '{' && s[i] != '*'
    ensures var j := if s[i] == '\\' then i + 1 else i;
            WithText(text, LiteralAt(s, i))
            == if j == |s| then None
               else if s[j] == '[' && NumRangeAt(s, j, ']').Some? then Some((text + [s[j]], j))
               else WithText(text + [s[j]], LiteralAt(s, j + 1))
  {
    var j := if s[i] == '\\' then i + 1 else i;
    if j < |s| && LiteralAt(s, j + 1).Some? {
      var rest := LiteralAt(s, j + 1).value.0;
      assert text + ([s[j]] + rest) == text + [s[j]] + rest;
    }
  }

  function WithRanges(ranges: seq<(char, char)>, r: Option<(seq<(char, char)>, nat)>)
    : Option<(seq<(char, char)>, nat)>
  {
    if r.None? then None else Some((ranges + r.value.0, r.value.1))
  }

  lemma RangesNone(r: Option<(seq<(char, char)>, nat)>)
    ensures WithRanges([], r) == r
  {
    if r.Some? {
      assert [] + r.value.0 == r.value.0;
    }
  }

  lemma RangesMore(ranges: seq<(char, char)>, s: string, i: nat, first: bool)
    requires i < |s| && (s[i] != '}' || first)
    ensures var wide := CharAt(s, i + 1) == '-' && i + 2 < |s| && s[i + 2] != '}';
            WithRanges(ranges, RangesAt(s, i, first))
            == if wide then WithRanges(ranges + [(s[i], s[i + 2])], RangesAt(s, i + 3, false))
               else WithRanges(ranges + [(s[i], s[i])], RangesAt(s, i + 1, false))
  {
    var wide := CharAt(s, i + 1) == '-' && i + 2 < |s| && s[i + 2] != '}';
    var next := RangesAt(s, if wide then i + 3 else i + 1, false);
    if next.Some? {
      var r := (s[i], if wide then s[i + 2] else s[i]);
      assert ranges + ([r] + next.value.0) == ranges + [r] + next.value.0;
    }
  }

  lemma TokensStep(s: string, i: nat, dotted: bool, read: seq<Elem>)
    requires i < |s|
    ensures var t := TokenAt(s, i, dotted, AfterLiteral(read));
            Extended(read, Tokens(s, i, dotted, AfterLiteral(read)))
            == if t.Bad? then Failed(t.status)
               else Extended(read + [t.elem], Tokens(s, t.end, dotted, AfterLiteral(read + [t.elem])))
  {
    var t := TokenAt(s, i, dotted, AfterLiteral(read));
    if t.Token? {
      var rest := Tokens(s, t.end, dotted, t.elem.Literal?);
      if rest.Elems? {
        assert read + ([t.elem] + rest.elems) == read + [t.elem] + rest.elems;
      }
    }
  }

  // The check of the last two characters refuses only lines that do not match.
  lemma LastTwo(pattern: seq<Elem>, line: string)
    requires |pattern| >= 2 && pattern[|pattern| - 2].Literal?
    requires var text := pattern[|pattern| - 2].text;
             |text| >= 2 && |line| >= 2
             && (line[|line| - 1] != text[|text| - 1] || line[|line| - 2] != text[|text| - 2])
    ensures !Accepts(Rest(pattern, 0), line)
  {
    if Accepts(Rest(pattern, 0), line) {
      EndsInLiteral(Rest(pattern, 0), line);
    }
    LastCharacters(line, pattern[|pattern| - 2].text);
  }

  lemma LastCharacters(line: string, text: string)
    requires |text| >= 2 && |line| >= 2
    ensures EndsWith(line, text) ==> line[|line| - 1] == text[|text| - 1] && line[|line| - 2] == text[|text| - 2]
  {
    if EndsWith(line, text) {
      assert line[|line| - |text|..][|text| - 1] == line[|line| - 1];
      assert line[|line| - |text|..][|text| - 2] == line[|line| - 2];
    }
  }

  // ----- What ranges and sets mean -----

  // Behind position i stand a number or none, two dots, a number or none, and the closing
  // character.
  predicate ReadsRange(s: string, i: nat, close: char, lo: string, up: string)
    requires i < |s|
  {
    AllDigits(lo) && AllDigits(up) && lo + ".." + up + [close] <= s[i + 1..]
  }

  function Bound(digits: string): int
    requires AllDigits(digits)
  {
    if digits == "" then -1 else Number(digits)
  }

  lemma {:induction false} RunUnique(s: string, i: nat, j: nat)
    requires i <= j <= |s| && (j < |s| ==> !IsDigit(s[j]))
    requires forall k :: i <= k < j ==> IsDigit(s[k])
    ensures RunEnd(s, i) == j
    decreases j - i
  {
    if i < j {
      RunUnique(s, i + 1, j);
    }
  }

  lemma RangeReads(s: string, i: nat, close: char, lo: string, up: string)
    requires i < |s| && !IsDigit(close) && close != '\0' && ReadsRange(s, i, close, lo, up)
    ensures NumRangeAt(s, i, close) == Some((Bound(lo), Bound(up), i + |lo| + |up| + 3))
  {
    hide AllDigits, NumRangeAt;
    RangeParts(s, i, close, lo, up);
    RangeScanned(s, i, close, lo, up);
  }

  // Where the parts of a range are.
  lemma RangeParts(s: string, i: nat, close: char, lo: string, up: string)
    requires i < |s| && lo + ".." + up + [close] <= s[i + 1..]
    ensures var a, b := i + 1 + |lo|, i + 3 + |lo| + |up|;
            && b < |s| && s[a] == '.' && s[a + 1] == '.' && s[b] == close
            && s[i + 1..a] == lo && s[a + 2..b] == up
  {
    var t, a, b := lo + ".." + up + [close], i + 1 + |lo|, i + 3 + |lo| + |up|;
    assert s[i + 1..b + 1] == t;
    Slices(lo, "..", up, [close]);
    assert s[a] == t[|lo|] && s[a + 1] == t[|lo| + 1] && s[b] == t[|lo| + 2 + |up|];
    assert s[i + 1..a] == t[..|lo|] && s[a + 2..b] == t[|lo| + 2..|lo| + 2 + |up|];
  }

  lemma Slices(a: string, b: string, c: string, d: string)
    requires |b| == 2 && |d| == 1
    ensures var t, n := a + b + c + d, |a| + 2 + |c|;
            && t[..|a|] == a && t[|a| + 2..n] == c && t[|a|] == b[0] && t[|a| + 1] == b[1] && t[n] == d[0]
  {
  }

  lemma RangeScanned(s: string, i: nat, close: char, lo: string, up: string)
    requires i < |s| && !IsDigit(close) && close != '\0' && AllDigits(lo) && AllDigits(up)
    requires var a, b := i + 1 + |lo|, i + 3 + |lo| + |up|;
             && b < |s| && s[a] == '.' && s[a + 1] == '.' && s[b] == close
             && s[i + 1..a] == lo && s[a + 2..b] == up
    ensures NumRangeAt(s, i, close) == Some((Bound(lo), Bound(up), i + |lo| + |up| + 3))
  {
    var a, b := i + 1 + |lo|, i + 3 + |lo| + |up|;
    DigitsFrom(s, i + 1, a);
    DigitsFrom(s, a + 2, b);
    RunUnique(s, i + 1, a);
    RunUnique(s, a + 2, b);
  }

  lemma DigitsFrom(s: string, i: nat, j: nat)
    requires i <= j <= |s| && AllDigits(s[i..j])
    ensures forall k :: i <= k < j ==> IsDigit(s[k])
  {
    DigitsAt(s[i..j]);
    assert forall k :: i <= k < j ==> s[k] == s[i..j][k - i];
  }

  lemma Reassembled(s: string, i: nat, a: nat, b: nat)
    requires i <= a && a + 2 <= b < |s| && s[a] == '.' && s[a + 1] == '.'
    ensures s[i..a] + ".." + s[a + 2..b] + [s[b]] <= s[i..]
  {
    assert s[i..][..b + 1 - i] == s[i..a] + ".." + s[a + 2..b] + [s[b]];
  }

  lemma RangeRead(s: string, i: nat, close: char) returns (lo: string, up: string)
    requires i < |s| && NumRangeAt(s, i, close).Some?
    ensures ReadsRange(s, i, close, lo, up)
  {
    var a := RunEnd(s, i + 1);
    var b := RunEnd(s, a + 2);
    lo, up := s[i + 1..a], s[a + 2..b];
    RunIsMaximal(s, i + 1);
    RunIsMaximal(s, a + 2);
    Reassembled(s, i + 1, a, b);
  }

  // The bounds of the range behind position i and where it ends, or none if none stands there.
  ghost predicate RangeFound(s: string, i: nat, close: char, r: Option<(int, int, nat)>)
    requires i < |s|
  {
    && (r.Some? <==> exists lo, up :: ReadsRange(s, i, close, lo, up))
    && forall lo, up :: ReadsRange(s, i, close, lo, up) ==> r == Some((Bound(lo), Bound(up), i + |lo| + |up| + 3))
  }

  lemma RangeMeaning(s: string, i: nat, close: char)
    requires i < |s| && !IsDigit(close) && close != '\0'
    ensures RangeFound(s, i, close, NumRangeAt(s, i, close))
  {
    forall lo, up | ReadsRange(s, i, close, lo, up)
      ensures NumRangeAt(s, i, close) == Some((Bound(lo), Bound(up), i + |lo| + |up| + 3))
    {
      RangeReads(s, i, close, lo, up);
    }
    if NumRangeAt(s, i, close).Some? {
      var lo, up := RangeRead(s, i, close);
    }
  }

  // The first character of a set does not close it; the next closing brace does.
  lemma {:induction false} SetCloses(s: string, i: nat, first: bool)
    ensures RangesAt(s, i, first).None? <==> forall k :: i <= k < |s| && (k > i || !first) ==> s[k] != '}'
    ensures RangesAt(s, i, first).Some?
            ==> var end := RangesAt(s, i, first).value.1;
                (end - 1 > i || !first) && s[end - 1] == '}'
                && forall k :: i <= k < end - 1 && (k > i || !first) ==> s[k] != '}'
    decreases |s| - i
  {
    if i < |s| && (s[i] != '}' || first) {
      var wide := CharAt(s, i + 1) == '-' && i + 2 < |s| && s[i + 2] != '}';
      SetCloses(s, if wide then i + 3 else i + 1, false);
    }
  }

  // The set ends at the first closing brace behind its first character.
  ghost predicate SetFound(s: string, i: nat, r: Scan) {
    var first := if CharAt(s, i + 1) == '^' then i + 2 else i + 1;
    if forall k :: first < k < |s| ==> s[k] != '}' then r == Bad(UnmatchedBrace)
    else r.Token? && first + 1 < r.end <= |s| && s[r.end - 1] == '}' && '}' !in s[first + 1..r.end - 1]
  }

  lemma SetMeaning(s: string, i: nat)
    requires i < |s|
    ensures SetFound(s, i, SetAt(s, i))
  {
    hide RangesAt;
    SetCloses(s, if CharAt(s, i + 1) == '^' then i + 2 else i + 1, true);
  }

  class PatternMatcher {
    var pattern: seq<Elem>

    method SetPattern(s: string, dotted: bool, fullString: bool) returns (status: Status)
      modifies this
      ensures status == Ok ==> WellFormed(pattern) && Compile(s, dotted, fullString) == Elems(Rest(pattern, 0))
      ensures status != Ok ==> Compile(s, dotted, fullString) == Failed(status)
    {
      hide TokenAt, Tokens, Extended, WellFormed, Rest;
      pattern := [];
      var i := 0;
      TokensBegin(s, dotted);
      while i < |s|
        invariant 0 <= i <= |s| && forall e <- pattern :: e != End
        invariant Extended(pattern, Tokens(s, i, dotted, AfterLiteral(pattern))) == Tokens(s, 0, dotted, false)
        decreases |s| - i, if AfterLiteral(pattern) then 0 else 1
      {
        TokensStep(s, i, dotted, pattern);
        var scan := ReadToken(s, i, dotted, AfterLiteral(pattern));
        if scan.Bad? {
          return scan.status;
        }
        pattern := pattern + [scan.elem];
        i := scan.end;
      }
      TokensEnd(s, pattern, dotted);
      ghost var elems := pattern;
      if !fullString {
        if |pattern| == 0 || pattern[|pattern| - 1] != AnySeq {
          pattern := pattern + [AnySeq];
        }
        if pattern[0] != AnySeq {
          pattern := [AnySeq] + pattern;
        }
        assert pattern == Widened(elems);
      }
      EndAdded(pattern);
      pattern := pattern + [End];
      status := Ok;
    }

    // The switch on the character at position i.
    method ReadToken(s: string, i: nat, dotted: bool, afterLiteral: bool) returns (r: Scan)
      requires i < |s|
      ensures r == TokenAt(s, i, dotted, afterLiteral)
    {
      hide RangeFound, SetFound, NumRangeAt, SetAt, LiteralAt;
      if s[i] == '?' {
        return Token(if dotted then CommonChar else AnyChar, i + 1);
      } else if s[i] == '[' {
        var range := None;
        if afterLiteral {
          range := ParseNumRange(s, i, ']');
        }
        if range.None? {
          r := ParseLiteralString(s, i);
        } else {
          return Token(NumRange(range.value.0, range.value.1), range.value.2);
        }
      } else if s[i] == '{' {
        var range := ParseNumRange(s, i, '}');
        if range.Some? {
          return Token(NumRange(range.value.0, range.value.1), range.value.2 + 1);
        }
        r := ParseSet(s, i);
      } else if s[i] == '*' {
        if CharAt(s, i + 1) == '*' {
          return Token(AnySeq, i + 2);
        }
        return Token(if dotted then CommonSeq else AnySeq, i + 1);
      } else {
        r := ParseLiteralString(s, i);
      }
    }

    method ParseNumRange(s: string, i: nat, close: char) returns (r: Option<(int, int, nat)>)
      requires i < |s| && close != '\0' && !IsDigit(close)
      ensures r == NumRangeAt(s, i, close) && RangeFound(s, i, close, r)
    {
      hide RangeFound;
      RangeMeaning(s, i, close);
      var lo: int, up: int := -1, -1;
      var j: nat := i + 1;
      RunIsMaximal(s, j);
      if IsDigit(CharAt(s, j)) {
        var a := SkipDigits(s, j);
        lo := Number(s[j..a]);
        j := a;
      }
      if CharAt(s, j) != '.' || CharAt(s, j + 1) != '.' {
        return None;
      }
      j := j + 2;
      RunIsMaximal(s, j);
      if IsDigit(CharAt(s, j)) {
        var b := SkipDigits(s, j);
        up := Number(s[j..b]);
        j := b;
      }
      if CharAt(s, j) != close {
        return None;
      }
      return Some((lo, up, j));
    }

    method ParseLiteralString(s: string, start: nat) returns (r: Scan)
      requires start <= |s|
      ensures r == LiteralToken(s, start)
    {
      hide RangeFound, NumRangeAt;
      var text, i := "", start;
      TextNone(LiteralAt(s, i));
      while i < |s| && s[i] != '?' && s[i] != '{' && s[i] != '*'
        invariant start <= i <= |s|
        invariant LiteralAt(s, start) == WithText(text, LiteralAt(s, i))
      {
        TextMore(text, s, i);
        if s[i] == '\\' {
          i := i + 1;
          if i == |s| {
            return Bad(RanOver);
          }
        }
        text := text + [s[i]];
        if s[i] == '[' {
          var range := ParseNumRange(s, i, ']');
          if range.Some? {
            return Token(Literal(text), i);
          }
        }
        i := i + 1;
      }
      assert text + "" == text;
      return Token(Literal(text), i);
    }

    method ParseSet(s: string, start: nat) returns (r: Scan)
      requires start < |s|
      ensures r == SetAt(s, start) && SetFound(s, start, r)
    {
      hide SetFound;
      SetMeaning(s, start);
      var i: nat := start + 1;
      var negated := false;
      if CharAt(s, i) == '^' {
        negated := true;
        i := i + 1;
      }
      var begin := i;
      var ranges := [];
      RangesNone(RangesAt(s, i, true));
      while i < |s| && (s[i] != '}' || i == begin)
        invariant begin <= i
        invariant RangesAt(s, begin, true) == WithRanges(ranges, RangesAt(s, i, i == begin))
        decreases |s| - i
      {
        RangesMore(ranges, s, i, i == begin);
        if CharAt(s, i + 1) == '-' && i + 2 < |s| && s[i + 2] != '}' {
          ranges := ranges + [(s[i], s[i + 2])];
          i := i + 3;
        } else {
          ranges := ranges + [(s[i], s[i])];
          i := i + 1;
        }
      }
      if i >= |s| {
        return Bad(UnmatchedBrace);
      }
      assert ranges + [] == ranges;
      return Token(if negated then NegSet(ranges) else Set(ranges), i + 1);
    }

    method DoMatch(line: string, i0: nat, k0: nat) returns (r: bool)
      requires WellFormed(pattern) && k0 < |pattern| && i0 <= |line|
      ensures r <==> Accepts(Rest(pattern, k0), line[i0..])
      decreases |pattern| - k0
    {
      hide Accepts, Rest;
      var k, i := k0, i0;
      while true
        invariant k0 <= k < |pattern| && 0 <= i <= |line|
        invariant Accepts(Rest(pattern, k0), line[i0..]) <==> Accepts(Rest(pattern, k), line[i..])
        decreases |pattern| - k
      {
        var e := pattern[k];
        match e {
          case Literal(text) =>
            StepLiteral(pattern, k, line, i);
            if !(text <= line[i..]) {
              return false;
            }
            i := i + |text|;
          case AnyChar =>
            StepOne(pattern, k, line, i);
            if i == |line| {
              return false;
            }
            i := i + 1;
          case CommonChar =>
            StepOne(pattern, k, line, i);
            if i == |line| || line[i] == '.' {
              return false;
            }
            i := i + 1;
          case Set(ranges) =>
            StepOne(pattern, k, line, i);
            if i == |line| {
              return false;
            }
            var found := IsInSet(line[i], ranges);
            if !found {
              return false;
            }
            i := i + 1;
          case NegSet(ranges) =>
            StepOne(pattern, k, line, i);
            if i == |line| {
              return false;
            }
            var found := IsInSet(line[i], ranges);
            if found {
              return false;
            }
            i := i + 1;
          case NumRange(lo, up) =>
            StepNumRange(pattern, k, line, i);
            if i == |line| || !IsDigit(line[i]) {
              return false;
            }
            var j := SkipDigits(line, i);
            var num := Number(line[i..j]);
            i := j;
            if (lo >= 0 && num < lo) || (up >= 0 && num > up) {
              return false;
            }
          case AnySeq =>
            if k == |pattern| - 2 {
              ShortcutAny(pattern, k, line[i..]);
              return true;
            }
            if k == |pattern| - 3 && pattern[k + 1].Literal? {
              ShortcutAnyLiteral(pattern, k, line[i..]);
              return EndsWith(line[i..], pattern[k + 1].text);
            }
            r := TrySequence(line, i, k);
            return;
          case CommonSeq =>
            r := TrySequence(line, i, k);
            return;
          case End =>
            StepEnd(pattern, line, i);
            return i == |line|;
        }
        k := k + 1;
      }
    }

    // The loop over the lengths a sequence element may take.
    method TrySequence(line: string, i0: nat, k: nat) returns (r: bool)
      requires WellFormed(pattern) && k + 1 < |pattern| && i0 <= |line|
      requires pattern[k].AnySeq? || pattern[k].CommonSeq?
      ensures r <==> Accepts(Rest(pattern, k), line[i0..])
      decreases |pattern| - k, 0
    {
      var i := i0;
      while true
        invariant 0 <= i <= |line|
        invariant Accepts(Rest(pattern, k), line[i0..]) <==> Accepts(Rest(pattern, k), line[i..])
        decreases |line| - i
      {
        StepSequence(pattern, k, line, i);
        var found := DoMatch(line, i, k + 1);
        if found {
          return true;
        }
        if i == |line| || (pattern[k].CommonSeq? && line[i] == '.') {
          return false;
        }
        i := i + 1;
      }
    }

    method IsInSet(c: char, ranges: seq<(char, char)>) returns (r: bool)
      ensures r <==> InSet(c, ranges)
    {
      var n := 0;
      while n < |ranges|
        invariant 0 <= n <= |ranges|
        invariant forall m :: 0 <= m < n ==> !(ranges[m].0 <= c <= ranges[m].1)
      {
        if ranges[n].0 <= c <= ranges[n].1 {
          return true;
        }
        n := n + 1;
      }
      return false;
    }

    method SkipDigits(s: string, i: nat) returns (j: nat)
      requires i <= |s|
      ensures j == RunEnd(s, i)
    {
      j := i;
      while j < |s| && IsDigit(s[j])
        invariant i <= j <= |s| && RunEnd(s, j) == RunEnd(s, i)
      {
        j := j + 1;
      }
    }

    method Matches(line: string) returns (r: bool)
      requires WellFormed(pattern)
      ensures r <==> Accepts(Rest(pattern, 0), line)
    {
      if |pattern| >= 2 {
        var e := pattern[|pattern| - 2];
        if e.Literal? {
          var n, m := |e.text|, |line|;
          if n >= 2 && m >= 2 && (line[m - 1] != e.text[n - 1] || line[m - 2] != e.text[n - 2]) {
            LastTwo(pattern, line);
            return false;
          }
        }
      }
      assert line[0..] == line;
      r := DoMatch(line, 0, 0);
    }
  }

  // ----- What patterns mean -----

  // Only an escape at the very end makes the scan pass the end of the pattern.
  lemma {:induction false} LiteralRunsOver(s: string, i: nat)
    requires i <= |s| && LiteralAt(s, i).None?
    ensures |s| > 0 && s[|s| - 1] == '\\'
    decreases |s| - i
  {
    var j := if s[i] == '\\' then i + 1 else i;
    if j < |s| {
      LiteralRunsOver(s, j + 1);
    }
  }

  lemma {:induction false} RunsOver(s: string, i: nat, dotted: bool, afterLiteral: bool)
    requires i <= |s| && Tokens(s, i, dotted, afterLiteral) == Failed(RanOver)
    ensures |s| > 0 && s[|s| - 1] == '\\'
    decreases |s| - i, if afterLiteral then 0 else 1
  {
    var t := TokenAt(s, i, dotted, afterLiteral);
    if t.Token? {
      RunsOver(s, t.end, dotted, t.elem.Literal?);
    } else {
      LiteralRunsOver(s, i);
    }
  }

  // Without wildcards a pattern is one literal.
  lemma {:induction false} PlainLiteral(s: string, i: nat)
    requires i <= |s| && !ContainsWildcards(s)
    ensures LiteralAt(s, i) == Some((s[i..], |s|))
    decreases |s| - i
  {
    if i < |s| {
      assert s[i] in s;
      if s[i] == '[' {
        NoRange(s, i, ']');
      }
      PlainLiteral(s, i + 1);
      assert s[i..] == [s[i]] + s[i + 1..];
    }
  }

  lemma NoRange(s: string, i: nat, close: char)
    requires i < |s| && forall k :: 0 <= k < |s| - 1 ==> !(s[k] == '.' && s[k + 1] == '.')
    ensures NumRangeAt(s, i, close).None?
  {
  }

  lemma PlainCompiles(s: string, dotted: bool, fullString: bool)
    requires !ContainsWildcards(s)
    ensures Compile(s, dotted, fullString)
            == Elems(if s == "" then (if fullString then [] else [AnySeq])
                     else if fullString then [Literal(s)] else [AnySeq, Literal(s), AnySeq])
  {
    if s != "" {
      assert s[0] in s;
      PlainLiteral(s, 0);
      assert s[0..] == s;
      assert TokenAt(s, 0, dotted, false) == Token(Literal(s), |s|);
      assert Tokens(s, |s|, dotted, true) == Elems([]);
      assert [Literal(s)] + [] == [Literal(s)];
    }
  }

  // A pattern without wildcards matches exactly itself.
  lemma PlainMatches(s: string, dotted: bool, line: string)
    requires !ContainsWildcards(s)
    ensures Compile(s, dotted, true).Elems?
    ensures Accepts(Compile(s, dotted, true).elems, line) <==> line == s
  {
    PlainCompiles(s, dotted, true);
    if s == "" {
      AcceptsNone(line);
    } else {
      TrailingLiteral(s, line);
    }
  }

  // A ** at the beginning lets the rest match from anywhere on.
  lemma AnyFirst(elems: seq<Elem>, line: string)
    requires |elems| > 0 && elems[0].AnySeq?
    ensures Accepts(elems, line) <==> exists i :: AcceptsFrom(elems[1..], line, i)
  {
    AcceptsFirst(elems, line);
    if n: nat :| Takes(elems, line, n) {
      assert AcceptsFrom(elems[1..], line, n);
    }
    if i :| AcceptsFrom(elems[1..], line, i) {
      assert Takes(elems, line, i);
    }
  }

  ghost predicate AcceptsFrom(elems: seq<Elem>, line: string, i: int) {
    0 <= i <= |line| && Accepts(elems, line[i..])
  }

  // A second ** at the end changes nothing.
  lemma {:induction false} AnyLast(elems: seq<Elem>, line: string)
    requires |elems| > 0 && elems[|elems| - 1].AnySeq?
    ensures Accepts(elems + [AnySeq], line) <==> Accepts(elems, line)
    decreases |elems|
  {
    var more := elems + [AnySeq];
    AcceptsFirst(more, line);
    AcceptsFirst(elems, line);
    assert more[1..] == elems[1..] + [AnySeq];
    if |elems| == 1 {
      assert elems == [AnySeq] && more[1..] == [AnySeq] && line[0..] == line;
      TrailingAny(elems, line);
      assert Takes(more, line, 0);
    } else {
      forall n: nat | n <= |line|
        ensures Takes(more, line, n) <==> Takes(elems, line, n)
      {
        AnyLast(elems[1..], line[n..]);
      }
    }
  }

  // In substring mode a line matches exactly if the elements match from some place on, with
  // anything left over behind.
  lemma WidenedAccepts(elems: seq<Elem>, line: string)
    ensures Accepts(Widened(elems), line) <==> exists i :: AcceptsFrom(elems + [AnySeq], line, i)
  {
    var all, t := elems + [AnySeq], Widened(elems);
    hide Accepts;
    if |elems| > 0 && elems[|elems| - 1] == AnySeq {
      forall i | 0 <= i <= |line|
        ensures Accepts(all, line[i..]) <==> Accepts(elems, line[i..])
      {
        AnyLast(elems, line[i..]);
      }
      WidenedFront(elems, line);
      assert forall i :: AcceptsFrom(all, line, i) <==> AcceptsFrom(elems, line, i);
    } else {
      WidenedFront(all, line);
    }
  }

  lemma WidenedFront(t: seq<Elem>, line: string)
    requires |t| > 0
    ensures Accepts(if t[0] != AnySeq then [AnySeq] + t else t, line) <==> exists i :: AcceptsFrom(t, line, i)
  {
    if t[0] != AnySeq {
      assert ([AnySeq] + t)[1..] == t;
      AnyFirst([AnySeq] + t, line);
    } else {
      AnyFirst(t, line);
      assert line[0..] == line;
      if Accepts(t, line) {
        assert AcceptsFrom(t, line, 0);
      }
      if i :| AcceptsFrom(t, line, i) {
        AnyFirst(t, line[i..]);
        var j :| AcceptsFrom(t[1..], line[i..], j);
        assert line[i..][j..] == line[i + j..];
        assert AcceptsFrom(t[1..], line, i + j);
      }
    }
  }

  // In substring mode it matches exactly the lines that contain it.
  lemma PlainOccurs(s: string, dotted: bool, line: string)
    requires !ContainsWildcards(s)
    ensures Compile(s, dotted, false).Elems?
    ensures Accepts(Compile(s, dotted, false).elems, line) <==> exists i :: OccursAt(s, line, i)
  {
    PlainCompiles(s, dotted, false);
    if s == "" {
      TrailingAny([AnySeq], line);
      assert OccursAt(s, line, 0);
    } else {
      var elems := [AnySeq, Literal(s), AnySeq];
      AcceptsFirst(elems, line);
      forall n: nat | n <= |line|
        ensures Takes(elems, line, n) <==> OccursAt(s, line, n)
      {
        LiteralThenAny(s, line[n..]);
        assert elems[1..] == [Literal(s), AnySeq];
      }
    }
  }

  predicate OccursAt(s: string, line: string, i: int) {
    0 <= i <= |line| && s <= line[i..]
  }

  lemma LiteralThenAny(s: string, line: string)
    ensures Accepts([Literal(s), AnySeq], line) <==> s <= line
  {
    var elems := [Literal(s), AnySeq];
    assert elems[1..] == [AnySeq];
    if |s| <= |line| {
      OnlyLength(elems, line, |s|);
      TrailingAny([AnySeq], line[|s|..]);
    } else {
      NoLength(elems, line);
    }
  }
}
