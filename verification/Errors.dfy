/**
 Which error `compile` reports: the pattern is read by the grammar up to the first offence, and the code is that of
 the offence. Offences are read off the text without scanning it.
 */
module Errors {
  import opened Bytes
  import opened Program
  import opened Pattern
  import opened Grouping
  import opened Brackets
  import opened Grammar
  import RoundTrip

  // ---------- Intervals ----------

  /** The digits from j on end at a. */
  ghost predicate DigitsTo(p: seq<byte>, j: nat, a: nat) {
    j <= a <= |p| && (forall k | j <= k < a :: IsDigit(p[k])) && (a < |p| ==> !IsDigit(p[a]))
  }

  /** Where the closing brace of an interval should stand, after its backslash. */
  predicate BraceOffence(p: seq<byte>, k: nat, code: int) {
    if k >= |p| then code == OFF_END else p[k] != RBRACE && code == 45
  }

  /** The offence in the second number of an interval, with digits from j to b, after the first number lo. */
  ghost predicate SecondOffence(p: seq<byte>, j: nat, b: nat, lo: int, code: int)
    requires j <= b <= |p|
  {
    if b == |p| then code == OFF_END
    else if b == j || (p[b] != BACKSLASH && p[b] != COMMA) then code == 16
    else if Decimal(p[j..b]) >= 255 then code == 11
    else if p[b] == COMMA then code == 44
    else BraceOffence(p, b + 1, code) || (b + 1 < |p| && p[b + 1] == RBRACE && Decimal(p[j..b]) < lo && code == 46)
  }

  /** The offence in an interval whose first number has digits from j to a. */
  ghost predicate FirstOffence(p: seq<byte>, j: nat, a: nat, code: int)
    requires j <= a <= |p|
  {
    if a == |p| then code == OFF_END
    else if a == j || (p[a] != BACKSLASH && p[a] != COMMA) then code == 16
    else if Decimal(p[j..a]) >= 255 then code == 11
    else if p[a] == BACKSLASH then BraceOffence(p, a + 1, code)
    else if a + 1 >= |p| then code == OFF_END
    else if p[a + 1] == BACKSLASH then BraceOffence(p, a + 2, code)
    else
      var j' := a + 1;
      exists b: nat :: DigitsTo(p, j', b) && SecondOffence(p, j', b, Decimal(p[j..a]), code)
  }

  ghost predicate IntervalOffence(p: seq<byte>, j: nat, code: int) {
    exists a: nat :: DigitsTo(p, j, a) && FirstOffence(p, j, a, code)
  }

  lemma {:induction false} DigitsEnd(p: seq<byte>, j: nat) returns (a: nat)
    requires j <= |p|
    ensures DigitsTo(p, j, a)
    decreases |p| - j
  {
    if j == |p| || !IsDigit(p[j]) {
      a := j;
    } else {
      a := DigitsEnd(p, j + 1);
    }
  }

  lemma DigitsEndOnce(p: seq<byte>, j: nat, a: nat, a': nat)
    requires DigitsTo(p, j, a) && DigitsTo(p, j, a')
    ensures a == a'
  {
  }

  /** How the number at j ends. */
  lemma {:induction false} NumberEndsAt(p: seq<byte>, j: nat, acc: nat, a: nat)
    requires DigitsTo(p, j, a)
    ensures var r := Number(p, j, acc);
            if a == |p| then r == NoCount(OFF_END)
            else if a == j || (p[a] != BACKSLASH && p[a] != COMMA) then r == NoCount(16)
            else r.GotCount? && r.next == a
    decreases a - j
  {
    if a == j {
    } else {
      NumberEndsAt(p, j + 1, 10 * acc + (p[j] - DIGIT_0), a);
    }
  }

  lemma NumberAt(p: seq<byte>, j: nat, a: nat)
    requires DigitsTo(p, j, a)
    ensures var r := Number(p, j, 0);
            if a == |p| then r == NoCount(OFF_END)
            else if a == j || (p[a] != BACKSLASH && p[a] != COMMA) then r == NoCount(16)
            else r.GotCount? && r.next == a && r.lo == Decimal(p[j..a])
  {
    NumberEndsAt(p, j, 0, a);
    if Number(p, j, 0).GotCount? {
      NumberIsDecimal(p, j);
    }
  }

  lemma SecondExactly(p: seq<byte>, j: nat, a: nat, b: nat, code: int)
    requires DigitsTo(p, j, a) && j < a && a + 1 < |p| && p[a] == COMMA && p[a + 1] != BACKSLASH
    requires Decimal(p[j..a]) < 255 && DigitsTo(p, a + 1, b)
    ensures Interval(p, j) == NoCount(code) <==> SecondOffence(p, a + 1, b, Decimal(p[j..a]), code)
  {
    NumberAt(p, j, a);
    NumberAt(p, a + 1, b);
  }

  /** An interval is rejected with the code of its first offence. */
  lemma IntervalRejected(p: seq<byte>, j: nat, code: int)
    requires j <= |p|
    ensures Interval(p, j) == NoCount(code) <==> IntervalOffence(p, j, code)
  {
    var a := DigitsEnd(p, j);
    FirstExactly(p, j, a, code);
    forall a': nat | DigitsTo(p, j, a')
      ensures a' == a
    {
      DigitsEndOnce(p, j, a, a');
    }
  }

  lemma FirstExactly(p: seq<byte>, j: nat, a: nat, code: int)
    requires DigitsTo(p, j, a)
    ensures Interval(p, j) == NoCount(code) <==> FirstOffence(p, j, a, code)
  {
    NumberAt(p, j, a);
    if j < a && a + 1 < |p| && p[a] == COMMA && p[a + 1] != BACKSLASH && Decimal(p[j..a]) < 255 {
      var j' := a + 1;
      var b := DigitsEnd(p, j');
      SecondExactly(p, j, a, b, code);
      forall b': nat | DigitsTo(p, j', b')
        ensures b' == b
      {
        DigitsEndOnce(p, j', b, b');
      }
    }
  }

  // ---------- Bracket expressions ----------

  /** The bracket expression from j stops at n, the first closing bracket after its first byte or else the end. */
  predicate StopsAt(p: seq<byte>, j: nat, n: nat) {
    && j <= n <= |p| && (n < |p| ==> j < n && p[n] == RBRACKET)
    && forall k | j < k < n :: p[k] != RBRACKET
  }

  /** The first byte from i on that may not stand where it stands. */
  ghost predicate FirstBad(p: seq<byte>, j: nat, n: nat, i: nat, k: nat, fits: bool) {
    && j <= i <= k < n <= |p| && !Admitted(p, j, n, k, fits)
    && forall m | i <= m < k :: Admitted(p, j, n, m, fits)
  }

  ghost predicate OffenceFrom(p: seq<byte>, j: nat, n: nat, i: nat, fits: bool, code: int)
    requires n <= |p|
  {
    || (exists k: nat :: FirstBad(p, j, n, i, k, fits) && code == if p[k] >= 128 then 50 else 49)
    || (n == |p| && Clean(p, j, n, i, fits) && code == OFF_END)
  }

  ghost predicate ClassOffence(p: seq<byte>, j: nat, fits: bool, code: int) {
    exists n: nat :: StopsAt(p, j, n) && OffenceFrom(p, j, n, j, fits, code)
  }

  lemma OffenceLater(p: seq<byte>, j: nat, n: nat, i: nat, fits: bool, code: int)
    requires j <= i < n <= |p| && Admitted(p, j, n, i, fits)
    ensures OffenceFrom(p, j, n, i, fits, code) <==> OffenceFrom(p, j, n, i + 1, fits, code)
  {
    forall k: nat
      ensures FirstBad(p, j, n, i, k, fits) <==> FirstBad(p, j, n, i + 1, k, fits)
    {
    }
    assert Clean(p, j, n, i, fits) <==> Clean(p, j, n, i + 1, fits);
  }

  lemma OffenceHere(p: seq<byte>, j: nat, n: nat, i: nat, fits: bool, code: int)
    requires j <= i < n <= |p| && !Admitted(p, j, n, i, fits)
    ensures OffenceFrom(p, j, n, i, fits, code) <==> code == if p[i] >= 128 then 50 else 49
  {
    assert FirstBad(p, j, n, i, i, fits);
    forall k: nat | FirstBad(p, j, n, i, k, fits)
      ensures k == i
    {
    }
  }

  lemma OffenceAtEnd(p: seq<byte>, j: nat, n: nat, fits: bool, code: int)
    requires j <= n <= |p|
    ensures OffenceFrom(p, j, n, n, fits, code) <==> n == |p| && code == OFF_END
  {
  }

  lemma {:induction false} MembersRejected(p: seq<byte>, j: nat, n: nat, i: nat, lc: byte, fits: bool, code: int)
    requires StopsAt(p, j, n) && j <= i < n && !MakesRange(p, j, n, i - 1)
    requires lc == if i == j then 0 else p[i - 1]
    ensures Members(p, i, lc, fits) == NoSet(code) <==> OffenceFrom(p, j, n, i, fits, code)
    decreases n - i, 0
  {
    if !Admitted(p, j, n, i, fits) {
      OffenceHere(p, j, n, i, fits, code);
    } else if p[i] == HYPHEN && lc != 0 && i + 1 < n {
      assert MakesRange(p, j, n, i) && !MakesRange(p, j, n, i + 1);
      OffenceLater(p, j, n, i, fits, code);
      if !Admitted(p, j, n, i + 1, fits) {
        OffenceHere(p, j, n, i + 1, fits, code);
      } else {
        OffenceLater(p, j, n, i + 1, fits, code);
        MoreRejected(Between(lc, p[i + 1]) + {p[i + 1]}, p, j, n, i + 2, p[i + 1], fits, code);
      }
    } else {
      OffenceLater(p, j, n, i, fits, code);
      if p[i] == HYPHEN && lc != 0 {
        OffenceAtEnd(p, j, n, fits, code);
      } else {
        MoreRejected({p[i]}, p, j, n, i + 1, p[i], fits, code);
      }
    }
  }

  lemma {:induction false} MoreRejected(s: set<byte>, p: seq<byte>, j: nat, n: nat, i: nat, lc: byte, fits: bool,
                                        code: int)
    requires StopsAt(p, j, n) && j < i <= n && !MakesRange(p, j, n, i - 1) && lc == p[i - 1]
    ensures MoreMembers(s, p, i, lc, fits) == NoSet(code) <==> OffenceFrom(p, j, n, i, fits, code)
    decreases n - i, 1
  {
    if i == n {
      OffenceAtEnd(p, j, n, fits, code);
    } else {
      MembersRejected(p, j, n, i, lc, fits, code);
    }
  }

  lemma {:induction false} BracketStops(p: seq<byte>, j: nat, i: nat) returns (n: nat)
    requires j < i <= |p|
    ensures i <= n <= |p| && (n < |p| ==> p[n] == RBRACKET) && forall k | i <= k < n :: p[k] != RBRACKET
    decreases |p| - i
  {
    if i == |p| || p[i] == RBRACKET {
      n := i;
    } else {
      n := BracketStops(p, j, i + 1);
    }
  }

  lemma StopsOnce(p: seq<byte>, j: nat, n: nat, n': nat)
    requires StopsAt(p, j, n) && StopsAt(p, j, n')
    ensures n == n'
  {
  }

  /** A bracket expression is rejected with the code of its first offence. */
  lemma ClassRejected(p: seq<byte>, j: nat, fits: bool, code: int)
    requires j <= |p|
    ensures Members(p, j, 0, fits) == NoSet(code) <==> ClassOffence(p, j, fits, code)
  {
    var n := j;
    if j < |p| {
      n := BracketStops(p, j, j + 1);
      MembersRejected(p, j, n, j, 0, fits, code);
    } else {
      OffenceAtEnd(p, j, n, fits, code);
    }
    assert StopsAt(p, j, n);
    forall n': nat | StopsAt(p, j, n')
      ensures n' == n
    {
      StopsOnce(p, j, n, n');
    }
  }

  // ---------- Pieces ----------

  /** The offence of an escaped character c: a tenth group, a parenthesis or a reference without its group. */
  predicate EscapeOffence(c: byte, g: Groups, code: int) {
    || (c == LPAREN && g.nbra >= 9 && code == 43)
    || (c == RPAREN && g.stack == [] && code == 42)
    || (c == NEWLINE && code == 36)
    || (DIGIT_1 <= c <= DIGIT_9 && c - DIGIT_0 > g.closed && code == 25)
  }

  ghost predicate PieceOffence(src: Input, i: nat, at: nat, g: Groups, code: int)
    requires i < |src.p|
  {
    if src.p[i] == LBRACKET then
      if at + 17 >= src.room then code == 50
      else if i + 1 >= |src.p| then code == OFF_END
      else ClassOffence(src.p, if src.p[i + 1] == CARET then i + 2 else i + 1, at + 33 < src.room, code)
    else
      && src.p[i] == BACKSLASH
      && if i + 1 >= |src.p| then code == OFF_END else EscapeOffence(src.p[i + 1], g, code)
  }

  lemma PieceRejected(src: Input, i: nat, at: nat, g: Groups, code: int)
    requires i < |src.p|
    ensures ReadPiece(src, i, at, g) == NoPiece(code) <==> PieceOffence(src, i, at, g, code)
  {
    if src.p[i] == LBRACKET && at + 17 < src.room && i + 1 < |src.p| {
      var negated := src.p[i + 1] == CARET;
      ReadBracketFrom(src, i + 1, at, g, negated);
      ClassRejected(src.p, if negated then i + 2 else i + 1, at + 33 < src.room, code);
    }
  }

  // ---------- Patterns ----------

  /** How far the pattern has been read: up to i, with `at` bytes of code, these groups and the last item so far. */
  datatype State = State(i: nat, at: nat, g: Groups, cur: Option<Item>)

  /** A piece that ends at n, or a suffix. */
  datatype Move = PieceMove(x: Piece, n: nat) | SuffixMove(m: Mark)

  /** The grammar can go on like that. */
  ghost predicate Allowed(src: Input, s: State, m: Move) {
    && s.at < src.room && s.i < |src.p|
    && match m
       case PieceMove(x, n) =>
         && !Ends(src, s.i) && (s.cur.Some? ==> NoMark(src, s.i, s.cur.value))
         && PieceFrom(src, s.i, n, x) && AfterPiece(x, s.g).Some? && (x.Bracket? ==> s.at + Size(x) < src.room)
       case SuffixMove(m) => s.cur.Some? && MarkAt(src, s.i, s.cur.value, m)
  }

  ghost function After(src: Input, s: State, m: Move): State
    requires Allowed(src, s, m)
  {
    match m
    case PieceMove(x, n) => State(n, s.at + Size(x), AfterPiece(x, s.g).value, Some(Item(x, false, [])))
    case SuffixMove(m) =>
      State(m.end, if m.suffix.Star? then s.at else s.at + 2, s.g, Some(Marked(s.cur.value, m.suffix)))
  }

  /** What is wrong at s: no space or no text left, a wrong end, or a wrong interval, bracket or escape. */
  ghost predicate Offence(src: Input, s: State, code: int) {
    if s.at >= src.room then code == 50
    else if s.i >= |src.p| then code == OFF_END
    else if Ends(src, s.i) then
      if src.p[s.i] != src.eof && src.sed then code == 36 else s.g.stack != [] && code == 42
    else if s.cur.Some? && StarFollows(src, s.i, s.cur.value) then false
    else if s.cur.Some? && IntervalFollows(src, s.i) then IntervalOffence(src.p, s.i + 2, code)
    else PieceOffence(src, s.i, s.at, s.g, code)
  }

  /** What the reference parser makes of the rest. */
  ghost function Resumed(src: Input, s: State): Parsed {
    match s.cur
    case None => ParseItems(src, s.i, s.at, s.g)
    case Some(x) => ParseSuffixes(src, s.i, s.at, s.g, x)
  }

  ghost predicate Reaches(src: Input, s: State, ms: seq<Move>, s': State)
    decreases |ms|
  {
    if ms == [] then s == s' else Allowed(src, s, ms[0]) && Reaches(src, After(src, s, ms[0]), ms[1..], s')
  }

  lemma SuffixKeeps(src: Input, s: State, m: Mark, code: int)
    requires Allowed(src, s, SuffixMove(m))
    ensures Resumed(src, s) == Resumed(src, After(src, s, SuffixMove(m))) && s.i < m.end <= |src.p|
  {
    MarkRead(src, s.i, s.at, s.g, s.cur.value, m);
  }

  lemma ItemsNext(src: Input, s: State, code: int)
    requires s.at < src.room && (s.cur.Some? ==> NoMark(src, s.i, s.cur.value))
    ensures Resumed(src, s) == Reject(code) <==> ParseItems(src, s.i, s.at, s.g) == Reject(code)
  {
    if s.cur.Some? {
      NoMarkRead(src, s.i, s.at, s.g, s.cur.value);
    }
  }

  lemma PieceKeeps(src: Input, s: State, x: Piece, n: nat, code: int)
    requires Allowed(src, s, PieceMove(x, n))
    ensures Resumed(src, s) == Reject(code) <==> Resumed(src, After(src, s, PieceMove(x, n))) == Reject(code)
    ensures s.i < n <= |src.p|
  {
    hide PieceFrom, ReadPiece, ParseSuffixes;
    PieceStart(src, s.i, n, x);
    PieceExactly(src, s.i, s.at, s.g, x, n, AfterPiece(x, s.g).value);
    ItemsNext(src, s, code);
  }

  /** Reading on does not change the error. */
  lemma MoveKeeps(src: Input, s: State, m: Move, code: int)
    requires Allowed(src, s, m)
    ensures Resumed(src, s) == Reject(code) <==> Resumed(src, After(src, s, m)) == Reject(code)
    ensures s.i < After(src, s, m).i <= |src.p|
  {
    hide Allowed, Resumed;
    match m
    case PieceMove(x, n) => PieceKeeps(src, s, x, n, code);
    case SuffixMove(k) => SuffixKeeps(src, s, k, code);
  }

  /** At the end of the space, of the text or of the pattern. */
  lemma EndExactly(src: Input, s: State, code: int)
    requires s.at >= src.room || s.i >= |src.p| || Ends(src, s.i)
    ensures Resumed(src, s) == Reject(code) <==> Offence(src, s, code)
  {
    if s.cur.Some? {
      NoMarkOrRoom(src, s, s.cur.value);
    }
  }

  lemma NoMarkOrRoom(src: Input, s: State, x: Item)
    requires s.at >= src.room || s.i >= |src.p| || Ends(src, s.i)
    ensures ParseSuffixes(src, s.i, s.at, s.g, x) == Prepend([x], ParseItems(src, s.i, s.at, s.g))
  {
  }

  /** Where a suffix of the last item begins. */
  lemma SuffixExactly(src: Input, s: State, code: int) returns (m: Option<Move>)
    requires s.at < src.room && s.i < |src.p| && !Ends(src, s.i) && s.cur.Some? && !NoMark(src, s.i, s.cur.value)
    ensures m.Some? ==> Allowed(src, s, m.value) && !Offence(src, s, code)
    ensures m.None? ==> (Resumed(src, s) == Reject(code) <==> Offence(src, s, code))
  {
    var x := s.cur.value;
    if StarApplies(src, s.i, x) {
      m := Some(SuffixMove(Mark(Star, s.i + 1)));
    } else {
      var r := Interval(src.p, s.i + 2);
      IntervalRejected(src.p, s.i + 2, code);
      if r.GotCount? {
        RoundTrip.IntervalExactly(src.p, s.i + 2, r.lo, r.hi, r.next);
        m := Some(SuffixMove(Mark(Count(r.lo, r.hi), r.next)));
      } else {
        m := None;
      }
    }
  }

  /** Where a piece begins. */
  lemma PieceOrOffence(src: Input, s: State, code: int) returns (m: Option<Move>)
    requires s.at < src.room && s.i < |src.p| && !Ends(src, s.i) && (s.cur.Some? ==> NoMark(src, s.i, s.cur.value))
    ensures m.Some? ==> Allowed(src, s, m.value) && !Offence(src, s, code)
    ensures m.None? ==> (Resumed(src, s) == Reject(code) <==> Offence(src, s, code))
  {
    hide ReadPiece, PieceFrom, PieceOffence;
    var r := ReadPiece(src, s.i, s.at, s.g);
    ItemsNext(src, s, code);
    PieceRejected(src, s.i, s.at, s.g, code);
    if r.GotPiece? {
      PieceExactly(src, s.i, s.at, s.g, r.piece, r.next, r.g);
      m := Some(PieceMove(r.piece, r.next));
    } else {
      m := None;
    }
  }

  /** Everywhere the grammar can either go on, and then there is no offence, or the offence decides. */
  lemma MoveOrOffence(src: Input, s: State, code: int) returns (m: Option<Move>)
    ensures m.Some? ==> Allowed(src, s, m.value) && !Offence(src, s, code)
    ensures m.None? ==> (Resumed(src, s) == Reject(code) <==> Offence(src, s, code))
  {
    hide Allowed, Offence, Resumed;
    m := None;
    if s.at >= src.room || s.i >= |src.p| || Ends(src, s.i) {
      EndExactly(src, s, code);
    } else if s.cur.Some? && !NoMark(src, s.i, s.cur.value) {
      m := SuffixExactly(src, s, code);
    } else {
      m := PieceOrOffence(src, s, code);
    }
  }

  /** A rejected pattern has an offence with its code that the grammar reaches. */
  lemma {:induction false} OffenceIsReached(src: Input, s: State, code: int) returns (ms: seq<Move>, s': State)
    requires Resumed(src, s) == Reject(code)
    ensures Reaches(src, s, ms, s') && Offence(src, s', code)
    decreases |src.p| - s.i
  {
    hide Allowed, Offence, Resumed, After;
    var m := MoveOrOffence(src, s, code);
    if m.None? {
      ms, s' := [], s;
    } else {
      MoveKeeps(src, s, m.value, code);
      var rest;
      rest, s' := OffenceIsReached(src, After(src, s, m.value), code);
      ms := [m.value] + rest;
      assert ms[1..] == rest;
    }
  }

  /** An offence that the grammar reaches is the error. */
  lemma {:induction false} ReachedIsRejected(src: Input, s: State, ms: seq<Move>, s': State, code: int)
    requires Reaches(src, s, ms, s') && Offence(src, s', code)
    ensures Resumed(src, s) == Reject(code)
    decreases |ms|
  {
    hide Allowed, Offence, Resumed, After;
    if ms == [] {
      var m := MoveOrOffence(src, s, code);
    } else {
      MoveKeeps(src, s, ms[0], code);
      ReachedIsRejected(src, After(src, s, ms[0]), ms[1..], s', code);
    }
  }

  /** Before the first item; a leading caret is not part of one. */
  function Start(src: Input): State
    requires src.p != []
  {
    State(if src.p[0] == CARET then 1 else 0, 0, NO_GROUPS, None)
  }

  /** Some way through the grammar leads to an offence with this code. */
  ghost predicate Offends(src: Input, code: int)
    requires src.p != []
  {
    exists ms, s :: Reaches(src, Start(src), ms, s) && Offence(src, s, code)
  }

  /** `compile` fails with a code exactly if the grammar leads to an offence that has this code. */
  lemma RejectExactly(src: Input, code: int)
    requires src.p != []
    ensures Parse(src) == Reject(code) <==> Offends(src, code)
  {
    hide Offence, Reaches;
    var s0 := Start(src);
    if Parse(src) == Reject(code) {
      var ms, s := OffenceIsReached(src, s0, code);
    }
    forall ms, s | Reaches(src, s0, ms, s) && Offence(src, s, code)
      ensures Parse(src) == Reject(code)
    {
      ReachedIsRejected(src, s0, ms, s, code);
    }
  }
}
