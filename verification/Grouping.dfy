/**
 Groups and suffixes over every run of the parser: parentheses nest, each index is used once, intervals have
 legal bounds, and back-references name closed groups under a condition that is stated exactly.
 */
module Grouping {
  import opened Bytes
  import opened Program
  import opened Captures
  import opened Pattern
  import opened Compilation
  import opened Emitter

  /** One piece of a well-nested pattern: indices are handed out in order and closed innermost first. */
  function AfterPiece(x: Piece, g: Groups): Option<Groups> {
    match x
    case OpenGroup(k) =>
      if k == g.nbra then Some(Groups(g.nbra + 1, g.stack + [k], g.closed)) else None
    case CloseGroup(k) =>
      if g.stack != [] && k == g.stack[|g.stack| - 1]
      then Some(Groups(g.nbra, g.stack[..|g.stack| - 1], g.closed + 1)) else None
    case BackRef(k) => if k < g.closed then Some(g) else None
    case _ => Some(g)
  }

  function AfterItems(items: seq<Item>, g: Groups): Option<Groups> {
    if items == [] then Some(g)
    else
      var g' := AfterPiece(items[0].piece, g);
      if g'.None? then None else AfterItems(items[1..], g'.value)
  }

  lemma GroupsStayOk(x: Piece, g: Groups)
    requires GroupsOk(g) && AfterPiece(x, g).Some?
    ensures GroupsOk(AfterPiece(x, g).value)
  {
  }

  /** Every state on the way through a well-nested pattern keeps the groups in order. */
  lemma {:induction false} GroupsOkThroughout(items: seq<Item>, g: Groups, n: nat)
    requires GroupsOk(g) && AfterItems(items, g).Some? && n <= |items|
    ensures AfterItems(items[..n], g).Some? && GroupsOk(AfterItems(items[..n], g).value)
    decreases n
  {
    if n == 0 {
    } else {
      GroupsStayOk(items[0].piece, g);
      GroupsOkThroughout(items[1..], AfterPiece(items[0].piece, g).value, n - 1);
      assert items[..n][1..] == items[1..][..n - 1];
    }
  }

  /** Bounds that an interval byte pair can have; no suffix on an end-of-line anchor or a bare parenthesis. */
  predicate Legal(x: Item) {
    && Proper(x)
    && (x.piece.EndOfLine? ==> !x.starred && x.bounds == [])
    && forall b | b in x.bounds :: b.0 <= 254 && b.0 <= b.1
  }

  lemma ReadPieceNests(src: Input, i: nat, at: nat, g: Groups)
    requires i < |src.p| && ReadPiece(src, i, at, g).GotPiece?
    ensures var r := ReadPiece(src, i, at, g);
            && AfterPiece(r.piece, g) == Some(r.g)
            && (r.piece.EndOfLine? ==> r.next < |src.p| && (src.p[r.next] == src.eof || src.p[r.next] == NEWLINE))
  {
  }

  ghost predicate LegalParse(r: Parsed, g: Groups) {
    r.Accept? ==>
      && (forall x | x in r.items :: Legal(x))
      && (forall i | 0 <= i < |r.items| - 1 :: !r.items[i].piece.EndOfLine?)
      && AfterItems(r.items, g).Some?
      && AfterItems(r.items, g).value.stack == [] && AfterItems(r.items, g).value.nbra == r.nbra
  }

  /** Every accepted pattern is well nested, closes all its groups, has only legal suffixes and ends with its anchor. */
  lemma {:induction false} ParseIsLegal(src: Input, i: nat, at: nat, g: Groups)
    ensures LegalParse(ParseItems(src, i, at, g), g)
    decreases |src.p| - i, 0
  {
    if at < src.room && i < |src.p| && src.p[i] != src.eof && src.p[i] != NEWLINE {
      var r := ReadPiece(src, i, at, g);
      if r.GotPiece? {
        ReadPieceNests(src, i, at, g);
        SuffixesAreLegal(src, r.next, at + Size(r.piece), g, r.g, Item(r.piece, false, []));
      }
    }
  }

  lemma {:induction false} SuffixesAreLegal(src: Input, i: nat, at: nat, g0: Groups, g: Groups, x: Item)
    requires AfterPiece(x.piece, g0) == Some(g) && Legal(x)
    requires x.piece.EndOfLine? ==> i < |src.p| && (src.p[i] == src.eof || src.p[i] == NEWLINE)
    ensures LegalParse(ParseSuffixes(src, i, at, g, x), g0)
    decreases |src.p| - i, 1
  {
    if at < src.room && StarApplies(src, i, x) {
      SuffixesAreLegal(src, i + 1, at, g0, g, x.(starred := true));
    } else if at < src.room && IntervalApplies(src, i) {
      var r := Interval(src.p, i + 2);
      if r.GotCount? {
        SuffixesAreLegal(src, r.next, at + 2, g0, g, x.(bounds := x.bounds + [(r.lo, r.hi)]));
      }
    } else {
      ParseIsLegal(src, i, at, g);
      var rest := ParseItems(src, i, at, g);
      if rest.Accept? {
        assert ([x] + rest.items)[1..] == rest.items;
      }
    }
  }

  // ---------- Back-references ----------

  /** Every back-reference stands where the group it names is not open. */
  predicate RefsClosed(items: seq<Item>, g: Groups) {
    items != [] ==>
    && (items[0].piece.BackRef? ==> items[0].piece.g !in g.stack)
    && (AfterPiece(items[0].piece, g).Some? ==> RefsClosed(items[1..], AfterPiece(items[0].piece, g).value))
  }

  /** Every back-reference stands outside all groups. */
  predicate RefsAtTop(items: seq<Item>, g: Groups) {
    items != [] ==>
    && (items[0].piece.BackRef? ==> g.stack == [])
    && (AfterPiece(items[0].piece, g).Some? ==> RefsAtTop(items[1..], AfterPiece(items[0].piece, g).value))
  }

  ghost predicate NulFree(x: Piece) { OneChar(x) ==> !AtomOf(x).Accepts(0) }

  predicate Below(k: Group, n: nat) { k < n }

  ghost function Begun(g: Groups): set<Group> { set k: Group | Below(k, g.nbra) }

  ghost function Ended(g: Groups): set<Group> { set k: Group | Below(k, g.nbra) && k !in g.stack }

  lemma GroupSets(x: Piece, g: Groups)
    requires GroupsOk(g) && AfterPiece(x, g).Some?
    ensures var g' := AfterPiece(x, g).value;
            && Begun(g') == (if x.OpenGroup? then Begun(g) + {x.g} else Begun(g))
            && Ended(g') == (if x.CloseGroup? then Ended(g) + {x.g} else Ended(g))
  {
    if x.CloseGroup? {
      var g' := AfterPiece(x, g).value;
      forall k: Group
        ensures k in Ended(g') <==> k in Ended(g) + {x.g}
      {
        if k in g.stack && k != x.g {
          var i :| 0 <= i < |g.stack| && g.stack[i] == k;
          assert g'.stack[i] == k;
        }
      }
    }
  }

  /** The first item is what makes the difference between the program and the rest of it. */
  lemma WellFormedStep(items: seq<Item>, g: Groups)
    requires Supported(items) && GroupsOk(g) && items != [] && AfterPiece(items[0].piece, g).Some?
    ensures var x, g' := items[0], AfterPiece(items[0].piece, g).value;
            WellFormed(Elems(items), Begun(g), Ended(g)) <==>
            && (x.piece.BackRef? ==> x.piece.g !in g.stack) && NulFree(x.piece)
            && WellFormed(Elems(items[1..]), Begun(g'), Ended(g'))
  {
    var x := items[0];
    assert Elems(items)[0] == ElemOf(x) && Elems(items)[1..] == Elems(items[1..]);
    GroupSets(x.piece, g);
  }

  /**
   The check that `compile` makes on a back-reference compares it with the number of closed groups. The
   group it names is really closed, and the program therefore well formed, exactly when no back-reference
   names a group that is still open and no element accepts NUL.
   */
  lemma {:induction false} WellFormedExactly(items: seq<Item>, g: Groups)
    requires Supported(items) && GroupsOk(g) && AfterItems(items, g).Some?
    ensures WellFormed(Elems(items), Begun(g), Ended(g)) <==>
            RefsClosed(items, g) && forall x | x in items :: NulFree(x.piece)
    decreases |items|
  {
    if items == [] {
    } else {
      hide WellFormed, GroupsOk, NulFree;
      var x, g' := items[0], AfterPiece(items[0].piece, g).value;
      GroupsStayOk(x.piece, g);
      WellFormedStep(items, g);
      WellFormedExactly(items[1..], g');
      assert (forall y | y in items :: NulFree(y.piece)) <==>
             NulFree(x.piece) && forall y | y in items[1..] :: NulFree(y.piece);
    }
  }

  /** Every back-reference names a group that is closed where the reference stands. */
  ghost predicate NamesClosed(items: seq<Item>, g: Groups)
    requires AfterItems(items, g).Some?
  {
    forall n | 0 <= n < |items| && items[n].piece.BackRef? ::
      AfterItems(items[..n], g).Some? && items[n].piece.g in Ended(AfterItems(items[..n], g).value)
  }

  lemma NamesClosedStep(items: seq<Item>, g: Groups)
    requires items != [] && AfterItems(items, g).Some?
    ensures NamesClosed(items, g) <==>
            && (items[0].piece.BackRef? ==> items[0].piece.g in Ended(g))
            && NamesClosed(items[1..], AfterPiece(items[0].piece, g).value)
  {
    var rest, g' := items[1..], AfterPiece(items[0].piece, g).value;
    assert items[..0] == [];
    forall n | 0 <= n < |rest|
      ensures rest[n] == items[n + 1] && AfterItems(items[..n + 1], g) == AfterItems(rest[..n], g')
    {
      assert items[..n + 1][1..] == rest[..n];
    }
    if NamesClosed(rest, g') && (items[0].piece.BackRef? ==> items[0].piece.g in Ended(g)) {
      forall n | 0 <= n < |items| && items[n].piece.BackRef?
        ensures AfterItems(items[..n], g).Some? && items[n].piece.g in Ended(AfterItems(items[..n], g).value)
      {
        if n > 0 {
          assert rest[n - 1] == items[n];
        }
      }
    }
  }

  /** Given the count check, it is enough that no back-reference names a group that is still open. */
  lemma {:induction false} RefsClosedExactly(items: seq<Item>, g: Groups)
    requires GroupsOk(g) && AfterItems(items, g).Some?
    ensures RefsClosed(items, g) <==> NamesClosed(items, g)
    decreases |items|
  {
    if items == [] {
    } else {
      NamesClosedStep(items, g);
      GroupsStayOk(items[0].piece, g);
      RefsClosedExactly(items[1..], AfterPiece(items[0].piece, g).value);
    }
  }

  /** Outside all groups the count check is enough: the reference names a closed group. */
  lemma {:induction false} RefsAtTopAreClosed(items: seq<Item>, g: Groups)
    requires GroupsOk(g) && AfterItems(items, g).Some? && RefsAtTop(items, g)
    ensures NamesClosed(items, g) && RefsClosed(items, g)
    decreases |items|
  {
    if items == [] {
    } else {
      NamesClosedStep(items, g);
      GroupsStayOk(items[0].piece, g);
      RefsAtTopAreClosed(items[1..], AfterPiece(items[0].piece, g).value);
    }
  }

  /** An escaped piece without suffixes, before the rest of the pattern. */
  lemma EscapeStep(src: Input, i: nat, at: nat, g: Groups, piece: Piece, g': Groups)
    requires at < src.room && i + 2 < |src.p| && src.p[i] == BACKSLASH != src.eof
    requires ReadEscape(src, i + 1, g) == GotPiece(piece, i + 2, g') && src.p[i + 1] != LBRACE && !OneChar(piece)
    requires src.p[i + 2] != ASTERISK && !IntervalApplies(src, i + 2)
    ensures ParseItems(src, i, at, g) == Prepend([Item(piece, false, [])], ParseItems(src, i + 2, at + 2, g'))
    ensures ParseItems(src, i + 2, at + 2, g').Accept? && !RefsClosed(ParseItems(src, i + 2, at + 2, g').items, g') ==>
              ParseItems(src, i, at, g).Accept? && !RefsClosed(ParseItems(src, i, at, g).items, g)
  {
    assert ReadPiece(src, i, at, g) == GotPiece(piece, i + 2, g');
    var rest := ParseItems(src, i + 2, at + 2, g');
    if rest.Accept? {
      assert ([Item(piece, false, [])] + rest.items)[1..] == rest.items;
    }
  }

  /** A group with a group in it and, after the inner one, a reference to the outer one. */
  function OpenReference(): Input {
    var b, o, c := BACKSLASH, LPAREN, RPAREN;
    Input([b, o, b, o, b, c, b, DIGIT_1, b, c, 0], 0, false, 100)
  }

  /** From i on the pattern is accepted, although it refers to a group that is open. */
  ghost predicate RefersToOpen(src: Input, i: nat, g: Groups) {
    var r := ParseItems(src, i, i, g);
    r.Accept? && !RefsClosed(r.items, g)
  }

  lemma OpenReferenceEnd(src: Input)
    requires src == OpenReference()
    ensures RefersToOpen(src, 6, Groups(2, [0], 1))
  {
    var g, g' := Groups(2, [0], 1), Groups(2, [], 2);
    assert ParseItems(src, 10, 10, g') == Accept([], 2, 11, false);
    EscapeStep(src, 8, 8, g, CloseGroup(0), g');
    EscapeStep(src, 6, 6, g, BackRef(0), g);
  }

  lemma OpenReferenceMiddle(src: Input)
    requires src == OpenReference()
    ensures RefersToOpen(src, 2, Groups(1, [0], 0))
  {
    hide ParseItems, RefsClosed, Prepend;
    OpenReferenceEnd(src);
    EscapeStep(src, 4, 4, Groups(2, [0, 1], 0), CloseGroup(1), Groups(2, [0], 1));
    EscapeStep(src, 2, 2, Groups(1, [0], 0), OpenGroup(1), Groups(2, [0, 1], 0));
  }

  lemma OpenReferenceStart(src: Input, g: Groups)
    requires src == OpenReference() && g == NO_GROUPS
    ensures RefersToOpen(src, 0, g)
  {
    hide ParseItems, RefsClosed, Prepend;
    OpenReferenceMiddle(src);
    assert g.stack + [0] == [0];
    EscapeStep(src, 0, 0, g, OpenGroup(0), Groups(1, [0], 0));
  }

  /** Inside a group it is not: this accepted pattern names its first group while that is still open. */
  lemma CountCheckIsNotEnough(src: Input)
    requires src == OpenReference()
    ensures Parse(src).Accept? && !RefsClosed(Parse(src).items, NO_GROUPS)
  {
    OpenReferenceStart(src, NO_GROUPS);
    assert src.p[0] == BACKSLASH;
  }

  // ---------- NUL ----------

  /** A pattern in a C string: NUL can only be its last byte. */
  predicate PatternString(p: seq<byte>) { forall i | 0 <= i < |p| - 1 :: p[i] != 0 }

  lemma {:induction false} MembersNulFree(p: seq<byte>, j: nat, lc: byte, fits: bool)
    requires PatternString(p)
    ensures Members(p, j, lc, fits).GotSet? ==> 0 !in Members(p, j, lc, fits).written
    decreases |p| - j
  {
    if j + 1 < |p| {
      MembersNulFree(p, j + 1, p[j], fits);
      BetweenBounds(lc, p[j + 1]);
    }
    if j + 2 < |p| {
      MembersNulFree(p, j + 2, p[j + 1], fits);
    }
  }

  lemma ReadPieceNulFree(src: Input, i: nat, at: nat, g: Groups)
    requires PatternString(src.p) && i < |src.p|
    ensures var r := ReadPiece(src, i, at, g);
            r.GotPiece? && r.next < |src.p| ==> NulFree(r.piece)
  {
    if src.p[i] == LBRACKET && i + 1 < |src.p| {
      var j := if src.p[i + 1] == CARET then i + 2 else i + 1;
      MembersNulFree(src.p, j, 0, at + 33 < src.room);
      var r := Members(src.p, j, 0, at + 33 < src.room);
      if r.GotSet? {
        ClassDenotes(src.p[i + 1] == CARET, r.written);
      }
    }
  }

  ghost predicate NulFreeParse(r: Parsed) {
    r.Accept? ==> forall x | x in r.items :: NulFree(x.piece)
  }

  /** No element of a pattern that comes in a C string accepts NUL. */
  lemma {:induction false} ParseIsNulFree(src: Input, i: nat, at: nat, g: Groups)
    requires PatternString(src.p)
    ensures NulFreeParse(ParseItems(src, i, at, g))
    decreases |src.p| - i, 0
  {
    if at < src.room && i < |src.p| && src.p[i] != src.eof && src.p[i] != NEWLINE {
      var r := ReadPiece(src, i, at, g);
      if r.GotPiece? && r.next < |src.p| {
        ReadPieceNulFree(src, i, at, g);
        SuffixesAreNulFree(src, r.next, at + Size(r.piece), r.g, Item(r.piece, false, []));
      } else if r.GotPiece? {
        SuffixesStop(src, r.next, at + Size(r.piece), r.g, Item(r.piece, false, []));
      }
    }
  }

  lemma {:induction false} SuffixesAreNulFree(src: Input, i: nat, at: nat, g: Groups, x: Item)
    requires PatternString(src.p) && NulFree(x.piece)
    ensures NulFreeParse(ParseSuffixes(src, i, at, g, x))
    decreases |src.p| - i, 1
  {
    if at < src.room && StarApplies(src, i, x) {
      SuffixesAreNulFree(src, i + 1, at, g, x.(starred := true));
    } else if at < src.room && IntervalApplies(src, i) {
      var r := Interval(src.p, i + 2);
      if r.GotCount? {
        SuffixesAreNulFree(src, r.next, at + 2, g, x.(bounds := x.bounds + [(r.lo, r.hi)]));
      }
    } else {
      ParseIsNulFree(src, i, at, g);
    }
  }
}
