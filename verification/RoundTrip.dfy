/**
 Every spelling of a list of items parses to that list: intervals and bracket expressions in any of their forms,
 characters plain or escaped, with any delimiter that is not a special character.
 */
module RoundTrip {
  import opened Bytes
  import opened Program
  import opened Pattern
  import opened Compilation
  import opened Grouping
  import opened Brackets

  // ---------- Intervals ----------

  lemma {:induction false} NumberEnds(p: seq<byte>, i: nat, acc: nat, n: nat)
    requires i < n < |p| && (p[n] == BACKSLASH || p[n] == COMMA) && forall k | i <= k < n :: IsDigit(p[k])
    ensures Number(p, i, acc).GotCount? && Number(p, i, acc).next == n
    decreases n - i
  {
    if i + 1 < n {
      NumberEnds(p, i + 1, 10 * acc + (p[i] - DIGIT_0), n);
    }
  }

  /** The digits of p from i up to j, at least one, spell n. */
  ghost predicate Spelled(p: seq<byte>, i: nat, j: nat, n: nat) {
    i < j <= |p| && (forall k | i <= k < j :: IsDigit(p[k])) && n == Decimal(p[i..j])
  }

  /**
   The text of an interval from j: digits up to a and `\}` at b, for the exact count `m`; or a comma at a, and then
   nothing for `m` or more, or digits up to b for from m to n. Leading zeros are allowed.
   */
  ghost predicate IntervalText(p: seq<byte>, j: nat, a: nat, b: nat, lo: nat, hi: nat) {
    && Spelled(p, j, a, lo) && a <= b && b + 1 < |p| && p[b] == BACKSLASH && p[b + 1] == RBRACE
    && lo <= 254 && lo <= hi
    && if a == b then hi == lo
       else p[a] == COMMA && if b == a + 1 then hi == OPEN_ENDED else Spelled(p, a + 1, b, hi) && hi <= 254
  }

  lemma NumberExactly(p: seq<byte>, i: nat, m: nat, j: nat)
    requires i < j < |p| && (p[j] == BACKSLASH || p[j] == COMMA)
    ensures Spelled(p, i, j, m) <==> Number(p, i, 0) == GotCount(m, m, j)
  {
    if Number(p, i, 0) == GotCount(m, m, j) {
      NumberIsDecimal(p, i);
    } else if Spelled(p, i, j, m) {
      NumberEnds(p, i, 0, j);
      NumberIsDecimal(p, i);
    }
  }

  lemma IntervalTextReads(p: seq<byte>, j: nat, a: nat, b: nat, lo: nat, hi: nat)
    requires IntervalText(p, j, a, b, lo, hi)
    ensures Interval(p, j) == GotCount(lo, hi, b + 2)
  {
    NumberExactly(p, j, lo, a);
    if a + 1 < b {
      NumberExactly(p, a + 1, hi, b);
    }
  }

  /** Which texts are intervals, and with which bounds, in every spelling. */
  lemma IntervalExactly(p: seq<byte>, j: nat, lo: nat, hi: nat, next: nat)
    ensures Interval(p, j) == GotCount(lo, hi, next) <==>
            exists a: nat, b: nat :: IntervalText(p, j, a, b, lo, hi) && next == b + 2
  {
    if Interval(p, j) == GotCount(lo, hi, next) {
      var m, b := Number(p, j, 0), next - 2;
      NumberExactly(p, j, m.lo, m.next);
      if p[m.next] == COMMA && p[m.next + 1] != BACKSLASH {
        var n := Number(p, m.next + 1, 0);
        NumberExactly(p, m.next + 1, n.lo, n.next);
      }
      assert IntervalText(p, j, m.next, b, lo, hi);
    }
    forall a: nat, b: nat | IntervalText(p, j, a, b, lo, hi) && next == b + 2
      ensures Interval(p, j) == GotCount(lo, hi, next)
    {
      IntervalTextReads(p, j, a, b, lo, hi);
    }
  }

  lemma HoldsAt(p: seq<byte>, i: nat, bytes: seq<byte>)
    requires Holds(p, i, bytes)
    ensures forall k | 0 <= k < |bytes| :: p[i + k] == bytes[k]
  {
    forall k | 0 <= k < |bytes|
      ensures p[i + k] == bytes[k]
    {
      assert p[i..i + |bytes|][k] == bytes[k];
    }
  }

  /** w is the text of an interval with bounds b. */
  ghost predicate BoundsText(w: seq<byte>, b: (byte, byte)) {
    && |w| > 2 && w[0] == BACKSLASH && w[1] == LBRACE
    && exists a: nat :: BoundsTextAt(w, a, b)
  }

  ghost predicate BoundsTextAt(w: seq<byte>, a: nat, b: (byte, byte)) {
    |w| >= 2 && IntervalText(w, 2, a, |w| - 2, b.0, b.1)
  }

  lemma IntervalTextWithin(p: seq<byte>, i: nat, w: seq<byte>, j: nat, a: nat, b: nat, lo: nat, hi: nat)
    requires Holds(p, i, w) && IntervalText(w, j, a, b, lo, hi)
    ensures IntervalText(p, i + j, i + a, i + b, lo, hi)
  {
    HoldsAt(p, i, w);
    assert forall k | i <= k < i + |w| :: p[k] == w[k - i];
    assert p[i + j..i + a] == w[j..a];
    if a + 1 < b {
      assert p[i + (a + 1)..i + b] == w[a + 1..b];
    }
  }

  /** The bounds written in an interval are the bounds read. */
  lemma IntervalReads(p: seq<byte>, i: nat, w: seq<byte>, b: (byte, byte))
    requires Holds(p, i, w) && BoundsText(w, b)
    ensures BoundAt(p, i, b, i + |w|)
  {
    var a: nat :| BoundsTextAt(w, a, b);
    HoldsAt(p, i, w);
    assert p[i + 0] == w[0];
    IntervalTextWithin(p, i, w, 2, a, |w| - 2, b.0, b.1);
    IntervalTextReads(p, i + 2, i + a, i + (|w| - 2), b.0, b.1);
  }

  // ---------- Pieces ----------

  /** Bytes that have to be escaped to stand for themselves wherever they occur. */
  predicate Special(c: int) {
    c == PERIOD || c == ASTERISK || c == DOLLAR || c == LBRACKET || c == BACKSLASH || c == CARET
  }

  /** Bytes that stand for themselves after a backslash. */
  predicate Escapable(c: byte) {
    && c != LPAREN && c != RPAREN && c != LBRACE && c != NEWLINE && c != LETTER_N
    && !(DIGIT_1 <= c <= DIGIT_9)
  }

  /** The bytes that a bracket expression lists from j to its closing bracket at n. */
  ghost function Listed(p: seq<byte>, j: nat, n: int): set<byte>
    requires n <= |p|
  {
    set x: byte | Denotes(p, j, n, j, x)
  }

  /** w is a bracket expression for the class x. */
  ghost predicate ClassText(w: seq<byte>, x: Piece)
    requires x.Bracket?
  {
    && |w| > 1 && w[0] == LBRACKET
    && var negated, n := w[1] == CARET, |w| - 1;
       var j := if negated then 2 else 1;
       Closes(w, j, n) && Clean(w, j, n, j, x.kind.Full?) && x == BracketPiece(negated, Listed(w, j, n))
  }

  /** w is a spelling of x in patterns with the given delimiter. */
  ghost predicate PieceText(w: seq<byte>, x: Piece, eof: int) {
    match x
    case Bracket(_, _) => ClassText(w, x)
    case Char(c) =>
      || (w == [c] && !Special(c) && c != NEWLINE && c != eof)
      || (w == [BACKSLASH, c] && Escapable(c))
      || (w == [BACKSLASH, LETTER_N] && c == NEWLINE)
    case Dot => w == [PERIOD]
    case OpenGroup(_) => w == [BACKSLASH, LPAREN]
    case CloseGroup(_) => w == [BACKSLASH, RPAREN]
    case BackRef(g) => w == [BACKSLASH, DIGIT_1 + g]
    case EndOfLine => w == [DOLLAR]
  }

  /** A scan that succeeds goes the same way wherever the text stands, and with more room. */
  lemma {:induction false} MembersWithin(p: seq<byte>, i: nat, w: seq<byte>, j: nat, lc: byte, fits: bool, fits': bool)
    requires Holds(p, i, w) && Members(w, j, lc, fits).GotSet? && (fits ==> fits')
    ensures var r := Members(w, j, lc, fits); Members(p, i + j, lc, fits') == GotSet(r.written, i + r.next)
    decreases |w| - j
  {
    HoldsAt(p, i, w);
    assert p[i + j] == w[j];
    assert j + 1 < |w| ==> p[i + (j + 1)] == w[j + 1];
    assert j + 2 < |w| ==> p[i + (j + 2)] == w[j + 2];
    if w[j] == HYPHEN && lc != 0 {
      if w[j + 1] != RBRACKET && w[j + 2] != RBRACKET {
        MembersWithin(p, i, w, j + 2, w[j + 1], fits, fits');
      }
    } else if w[j + 1] != RBRACKET {
      MembersWithin(p, i, w, j + 1, w[j], fits, fits');
    }
  }

  lemma ClassScanned(w: seq<byte>, j: nat, fits: bool)
    requires Closes(w, j, |w| - 1) && Clean(w, j, |w| - 1, j, fits)
    ensures Members(w, j, 0, fits) == GotSet(Listed(w, j, |w| - 1), |w|)
  {
    BracketAccepted(w, j, fits);
    BracketDenotes(w, j, fits);
    assert Members(w, j, 0, fits).written == Listed(w, j, |w| - 1);
  }

  /** A bracket expression for a class is read as that class. */
  lemma ClassReads(src: Input, i: nat, at: nat, g: Groups, x: Piece, w: seq<byte>)
    requires x.Bracket? && Holds(src.p, i, w) && ClassText(w, x) && at + Size(x) < src.room
    ensures src.p[i] == LBRACKET && ReadPiece(src, i, at, g) == GotPiece(x, i + |w|, g)
  {
    var negated := w[1] == CARET;
    var j := if negated then 2 else 1;
    HoldsAt(src.p, i, w);
    assert src.p[i + 0] == w[0] && src.p[i + 1] == w[1];
    ClassScanned(w, j, x.kind.Full?);
    MembersWithin(src.p, i, w, j, 0, x.kind.Full?, at + 33 < src.room);
    ReadBracketFrom(src, i + 1, at, g, negated);
  }

  /** A written piece is read as that piece. */
  lemma PieceReads(src: Input, i: nat, at: nat, g: Groups, x: Piece, w: seq<byte>)
    requires !Special(src.eof) && Holds(src.p, i, w) && PieceText(w, x, src.eof)
    requires AfterPiece(x, g).Some? && at + Size(x) < src.room
    requires x.EndOfLine? ==> i + 1 < |src.p| && src.p[i + 1] == src.eof
    ensures src.p[i] != src.eof && src.p[i] != NEWLINE
    ensures ReadPiece(src, i, at, g) == GotPiece(x, i + |w|, AfterPiece(x, g).value)
  {
    HoldsAt(src.p, i, w);
    if x.Bracket? {
      ClassReads(src, i, at, g, x, w);
    }
  }

  /** A piece does not begin like a suffix or an anchored pattern. */
  lemma PieceTextStart(w: seq<byte>, x: Piece, eof: int)
    requires PieceText(w, x, eof)
    ensures w != [] && w[0] != ASTERISK && w[0] != CARET
    ensures w[0] == BACKSLASH ==> |w| == 2 && w[1] != LBRACE
  {
  }

  // ---------- Suffixes ----------

  function ShowStar(starred: bool): seq<byte> { if starred then [ASTERISK] else [] }

  /** The texts of a piece and of its interval, which is empty without one. */
  datatype Spelling = Spelling(piece: seq<byte>, bounds: seq<byte>)

  function ItemText(x: Item, s: Spelling): seq<byte> { s.piece + s.bounds + ShowStar(x.starred) }

  ghost predicate Spells(s: Spelling, x: Item, eof: int) {
    PieceText(s.piece, x.piece, eof) && if x.bounds == [] then s.bounds == [] else BoundsText(s.bounds, x.bounds[0])
  }

  /** Where no suffix follows. */
  predicate NoSuffix(src: Input, i: nat) {
    i < |src.p| && src.p[i] != ASTERISK && !IntervalApplies(src, i)
  }

  predicate StarAt(p: seq<byte>, i: nat, starred: bool, n: nat) {
    if starred then i < |p| && p[i] == ASTERISK && n == i + 1 else n == i
  }

  predicate BoundAt(p: seq<byte>, i: nat, b: (byte, byte), n: nat) {
    i + 1 < |p| && p[i] == BACKSLASH && p[i + 1] == LBRACE && Interval(p, i + 2) == GotCount(b.0, b.1, n)
  }

  /** Where the interval of x ends that stands at i, if x has one. */
  function AfterBound(p: seq<byte>, i: nat, x: Item): nat {
    if x.bounds == [] || Interval(p, i + 2).NoCount? then i else Interval(p, i + 2).next
  }

  /** The suffixes of x stand in p from i to n. */
  predicate SuffixesAt(p: seq<byte>, i: nat, x: Item, n: nat) {
    && StarAt(p, AfterBound(p, i, x), x.starred, n)
    && (x.bounds != [] ==> BoundAt(p, i, x.bounds[0], AfterBound(p, i, x)))
  }

  lemma StarReads(src: Input, i: nat, at: nat, g: Groups, x: Item, n: nat)
    requires Legal(x) && at < src.room && !Special(src.eof) && StarAt(src.p, i, x.starred, n) && NoSuffix(src, n)
    ensures ParseSuffixes(src, i, at, g, x.(starred := false)) == Prepend([x], ParseItems(src, n, at, g))
  {
    if x.starred {
      assert x.(starred := false).(starred := true) == x;
    } else {
      assert x.(starred := false) == x;
    }
  }

  lemma IntervalStep(src: Input, i: nat, at: nat, g: Groups, x: Item, b: (byte, byte), n: nat)
    requires !Special(src.eof) && at < src.room && BoundAt(src.p, i, b, n)
    ensures ParseSuffixes(src, i, at, g, x) == ParseSuffixes(src, n, at + 2, g, x.(bounds := x.bounds + [b]))
  {
    assert !StarApplies(src, i, x) && IntervalApplies(src, i);
  }

  /** The suffixes that stand in the pattern are read as those of the item. */
  lemma SuffixesRead(src: Input, i: nat, at: nat, g: Groups, x: Item, n: nat)
    requires Legal(x) && |x.bounds| <= 1 && !Special(src.eof) && at + 2 * |x.bounds| < src.room
    requires SuffixesAt(src.p, i, x, n) && NoSuffix(src, n)
    ensures ParseSuffixes(src, i, at, g, Item(x.piece, false, []))
         == Prepend([x], ParseItems(src, n, at + 2 * |x.bounds|, g))
  {
    var bare, m := Item(x.piece, false, []), AfterBound(src.p, i, x);
    if x.bounds != [] {
      IntervalStep(src, i, at, g, bare, x.bounds[0], m);
      assert bare.bounds + [x.bounds[0]] == x.bounds;
    }
    assert bare.(bounds := x.bounds) == x.(starred := false);
    StarReads(src, m, at + 2 * |x.bounds|, g, x, n);
  }

  // ---------- Patterns ----------

  /** Items with at most one interval. */
  predicate Writable(x: Item) { Legal(x) && |x.bounds| <= 1 }

  lemma ItemBytesLength(x: Item)
    requires |x.bounds| <= 1
    ensures |ItemBytes(x)| == Size(x.piece) + 2 * |x.bounds|
  {
    if x.bounds != [] {
      assert BoundBytes(x.bounds[..0]) == [];
    }
  }

  ghost predicate ParsesTo(src: Input, i: nat, at: nat, g: Groups, r: Parsed) {
    match r
    case Reject(_) => false
    case Accept(_, _, _, _) => ParseItems(src, i, at, g) == r
  }

  /** A spelling w of the piece of x stands in the pattern at i, and then its suffixes up to n. */
  ghost predicate ItemAt(src: Input, i: nat, x: Item, w: seq<byte>, n: nat) {
    Holds(src.p, i, w) && PieceText(w, x.piece, src.eof) && SuffixesAt(src.p, i + |w|, x, n)
  }

  /** An item that stands in the pattern, with no suffix after it, is read as that item. */
  lemma ItemReads(src: Input, i: nat, at: nat, g: Groups, x: Item, w: seq<byte>, n: nat, at': nat, r: Parsed)
    requires Writable(x) && !Special(src.eof) && ItemAt(src, i, x, w, n) && NoSuffix(src, n)
    requires at' == at + |ItemBytes(x)| < src.room
    requires AfterPiece(x.piece, g).Some? && (x.piece.EndOfLine? ==> src.p[n] == src.eof)
    requires ParsesTo(src, n, at', AfterPiece(x.piece, g).value, r)
    ensures ParsesTo(src, i, at, g, Prepend([x], r))
  {
    var j, g' := i + |w|, AfterPiece(x.piece, g).value;
    ItemBytesLength(x);
    PieceReads(src, i, at, g, x.piece, w);
    SuffixesRead(src, j, at + Size(x.piece), g', x, n);
    assert ParseItems(src, i, at, g) == ParseSuffixes(src, j, at + Size(x.piece), g', Item(x.piece, false, []));
  }

  /** The items stand in the pattern one after the other from i to n, spelled as in ss. */
  ghost predicate Written(src: Input, i: nat, items: seq<Item>, ss: seq<Spelling>, n: nat)
    decreases |items|
  {
    && |ss| == |items|
    && if items == [] then i == n
       else
         var next := i + |ItemText(items[0], ss[0])|;
         ItemAt(src, i, items[0], ss[0].piece, next) && Written(src, next, items[1..], ss[1..], n)
  }

  /** A list of items that a pattern can have, up to its end. */
  ghost predicate WritableList(items: seq<Item>, g: Groups) {
    && (forall x | x in items :: Writable(x))
    && (forall k | 0 <= k < |items| - 1 :: !items[k].piece.EndOfLine?)
    && AfterItems(items, g).Some? && AfterItems(items, g).value.stack == []
  }

  /** An item does not begin like a suffix. */
  lemma ItemIsNoSuffix(src: Input, i: nat, x: Item, w: seq<byte>, n: nat)
    requires ItemAt(src, i, x, w, n)
    ensures NoSuffix(src, i) && src.p[i] != CARET
  {
    PieceTextStart(w, x.piece, src.eof);
    HoldsAt(src.p, i, w);
    assert src.p[i + 0] == w[0];
    assert |w| > 1 ==> src.p[i + 1] == w[1];
  }

  lemma WritableStep(items: seq<Item>, g: Groups)
    requires WritableList(items, g) && items != []
    ensures Writable(items[0]) && (items[0].piece.EndOfLine? ==> items[1..] == [])
    ensures AfterPiece(items[0].piece, g).Some? && WritableList(items[1..], AfterPiece(items[0].piece, g).value)
    ensures AfterItems(items, g) == AfterItems(items[1..], AfterPiece(items[0].piece, g).value)
  {
    assert items[0] in items;
  }

  /** Where the next item or the end of the pattern stands, there is no suffix. */
  lemma NextIsNoSuffix(src: Input, i: nat, items: seq<Item>, ss: seq<Spelling>, n: nat)
    requires !Special(src.eof) && Written(src, i, items, ss, n) && n < |src.p| && src.p[n] == src.eof
    ensures NoSuffix(src, i) && (items == [] ==> src.p[i] == src.eof) && src.p[i] != CARET
  {
    if items != [] {
      ItemIsNoSuffix(src, i, items[0], ss[0].piece, i + |ItemText(items[0], ss[0])|);
    }
  }

  lemma {:induction false} ItemsRead(src: Input, i: nat, at: nat, g: Groups, items: seq<Item>, ss: seq<Spelling>,
                                     nbra: nat, n: nat)
    requires WritableList(items, g) && !Special(src.eof) && Written(src, i, items, ss, n)
    requires n < |src.p| && src.p[n] == src.eof
    requires at + |Encode(items)| < src.room && nbra == AfterItems(items, g).value.nbra
    ensures ParsesTo(src, i, at, g, Accept(items, nbra, n + 1, false))
    decreases |items|
  {
    hide ItemAt, ItemBytes, ItemText;
    if items == [] {
    } else {
      var x, rest, g' := items[0], items[1..], AfterPiece(items[0].piece, g).value;
      var next := i + |ItemText(x, ss[0])|;
      WritableStep(items, g);
      NextIsNoSuffix(src, next, rest, ss[1..], n);
      ItemsRead(src, next, at + |ItemBytes(x)|, g', rest, ss[1..], nbra, n);
      ItemReads(src, i, at, g, x, ss[0].piece, next, at + |ItemBytes(x)|, Accept(rest, nbra, n + 1, false));
      assert [x] + rest == items;
    }
  }

  function PatternText(items: seq<Item>, ss: seq<Spelling>): seq<byte>
    requires |ss| == |items|
  {
    if items == [] then [] else ItemText(items[0], ss[0]) + PatternText(items[1..], ss[1..])
  }

  lemma SuffixTextIsAt(p: seq<byte>, i: nat, x: Item, w: seq<byte>, n: nat)
    requires |x.bounds| <= 1 && Holds(p, i, w + ShowStar(x.starred)) && n == i + |w| + |ShowStar(x.starred)|
    requires if x.bounds == [] then w == [] else BoundsText(w, x.bounds[0])
    ensures SuffixesAt(p, i, x, n)
  {
    HoldsSplit(p, i, w, ShowStar(x.starred));
    HoldsAt(p, i + |w|, ShowStar(x.starred));
    if x.bounds != [] {
      IntervalReads(p, i, w, x.bounds[0]);
    }
  }

  /** The text of an item stands for it. */
  lemma ItemTextIsAt(src: Input, i: nat, x: Item, s: Spelling)
    requires Writable(x) && Spells(s, x, src.eof) && Holds(src.p, i, ItemText(x, s))
    ensures ItemAt(src, i, x, s.piece, i + |ItemText(x, s)|)
  {
    var star := ShowStar(x.starred);
    assert s.piece + s.bounds + star == s.piece + (s.bounds + star);
    HoldsSplit(src.p, i, s.piece, s.bounds + star);
    SuffixTextIsAt(src.p, i + |s.piece|, x, s.bounds, i + |ItemText(x, s)|);
  }

  ghost predicate AllSpelled(items: seq<Item>, ss: seq<Spelling>, eof: int) {
    |ss| == |items| && forall k | 0 <= k < |items| :: Writable(items[k]) && Spells(ss[k], items[k], eof)
  }

  lemma {:induction false} TextIsWritten(src: Input, i: nat, items: seq<Item>, ss: seq<Spelling>)
    requires AllSpelled(items, ss, src.eof) && Holds(src.p, i, PatternText(items, ss))
    ensures Written(src, i, items, ss, i + |PatternText(items, ss)|)
    decreases |items|
  {
    hide ItemAt, Spells, Writable, ItemText;
    if items == [] {
    } else {
      var w := ItemText(items[0], ss[0]);
      HoldsSplit(src.p, i, w, PatternText(items[1..], ss[1..]));
      ItemTextIsAt(src, i, items[0], ss[0]);
      TextIsWritten(src, i + |w|, items[1..], ss[1..]);
    }
  }

  /** Every pattern text that spells a list of items a pattern can have is parsed to exactly that list. */
  lemma ParseText(items: seq<Item>, ss: seq<Spelling>, eof: byte, sed: bool, room: int)
    requires WritableList(items, NO_GROUPS) && AllSpelled(items, ss, eof) && !Special(eof) && |Encode(items)| < room
    ensures var n, p := AfterItems(items, NO_GROUPS).value.nbra, PatternText(items, ss) + [eof];
            Parse(Input(p, eof, sed, room)) == Accept(items, n, |p|, false)
  {
    hide ItemAt, Spells, Writable, Encode;
    var w, n := PatternText(items, ss), AfterItems(items, NO_GROUPS).value.nbra;
    var src := Input(w + [eof], eof, sed, room);
    assert src.p[0..|w|] == w;
    TextIsWritten(src, 0, items, ss);
    NextIsNoSuffix(src, 0, items, ss, |w|);
    ItemsRead(src, 0, 0, NO_GROUPS, items, ss, n, |w|);
  }

  // ---------- A spelling for every item ----------

  function ShowNumber(n: nat): (r: seq<byte>) {
    if n < 10 then [DIGIT_0 + n] else ShowNumber(n / 10) + [DIGIT_0 + n % 10]
  }

  lemma {:induction false} ShowNumberReads(n: nat)
    ensures ShowNumber(n) != [] && Decimal(ShowNumber(n)) == n
    ensures forall k | 0 <= k < |ShowNumber(n)| :: IsDigit(ShowNumber(n)[k])
  {
    var r := ShowNumber(n);
    if n < 10 {
      assert r[..0] == [] && Decimal([]) == 0;
    } else {
      ShowNumberReads(n / 10);
      assert r[..|r| - 1] == ShowNumber(n / 10);
    }
  }

  function ShowBounds(b: (byte, byte)): seq<byte> {
    [BACKSLASH, LBRACE] + ShowNumber(b.0) + [COMMA] + (if b.1 == OPEN_ENDED then [] else ShowNumber(b.1)) +
    [BACKSLASH, RBRACE]
  }

  lemma ShowNumberIsAt(w: seq<byte>, i: nat, n: nat)
    requires Holds(w, i, ShowNumber(n))
    ensures Spelled(w, i, i + |ShowNumber(n)|, n)
  {
    ShowNumberReads(n);
    HoldsAt(w, i, ShowNumber(n));
    assert forall k | i <= k < i + |ShowNumber(n)| :: w[k] == ShowNumber(n)[k - i];
  }

  lemma BoundsParts(lo: seq<byte>, hi: seq<byte>, w: seq<byte>)
    requires w == [BACKSLASH, LBRACE] + lo + [COMMA] + hi + [BACKSLASH, RBRACE]
    ensures var a := 2 + |lo|;
            && |w| == a + |hi| + 3 && Holds(w, 2, lo) && Holds(w, a + 1, hi)
            && w[0] == BACKSLASH && w[1] == LBRACE && w[a] == COMMA
            && w[|w| - 2] == BACKSLASH && w[|w| - 1] == RBRACE
  {
  }

  lemma ShowBoundsReads(b: (byte, byte))
    requires b.0 <= 254 && b.0 <= b.1
    ensures BoundsText(ShowBounds(b), b)
  {
    hide ShowNumber;
    var w, lo, hi := ShowBounds(b), ShowNumber(b.0), if b.1 == OPEN_ENDED then [] else ShowNumber(b.1);
    BoundsParts(lo, hi, w);
    ShowNumberIsAt(w, 2, b.0);
    if b.1 != OPEN_ENDED {
      ShowNumberIsAt(w, 3 + |lo|, b.1);
    }
    assert BoundsTextAt(w, 2 + |lo|, b);
  }

  /** A class that some bracket expression denotes, or another piece that the delimiter does not rule out. */
  ghost predicate Showable(x: Piece, eof: int) {
    if x.Bracket? then exists w :: ClassText(w, x) else x.Char? && x.c == eof ==> x.c == NEWLINE || Escapable(x.c)
  }

  ghost function ShowPiece(x: Piece, eof: int): seq<byte>
    requires Showable(x, eof)
  {
    match x
    case Bracket(_, _) => var w :| ClassText(w, x); w
    case Char(c) =>
      if c == NEWLINE then [BACKSLASH, LETTER_N] else if Special(c) || c == eof then [BACKSLASH, c] else [c]
    case Dot => [PERIOD]
    case OpenGroup(_) => [BACKSLASH, LPAREN]
    case CloseGroup(_) => [BACKSLASH, RPAREN]
    case BackRef(g) => [BACKSLASH, DIGIT_1 + g]
    case EndOfLine => [DOLLAR]
  }

  ghost function Show(x: Item, eof: int): Spelling
    requires Showable(x.piece, eof)
  {
    Spelling(ShowPiece(x.piece, eof), if x.bounds == [] then [] else ShowBounds(x.bounds[0]))
  }

  ghost function ShowAll(items: seq<Item>, eof: int): seq<Spelling>
    requires forall k | 0 <= k < |items| :: Showable(items[k].piece, eof)
  {
    seq(|items|, k requires 0 <= k < |items| => Show(items[k], eof))
  }

  /** Parsing a written pattern gives the items that were written. */
  lemma ParseShow(items: seq<Item>, eof: byte, sed: bool, room: int)
    requires WritableList(items, NO_GROUPS) && !Special(eof) && |Encode(items)| < room
    requires forall k | 0 <= k < |items| :: Showable(items[k].piece, eof)
    ensures var n, p := AfterItems(items, NO_GROUPS).value.nbra, PatternText(items, ShowAll(items, eof)) + [eof];
            Parse(Input(p, eof, sed, room)) == Accept(items, n, |p|, false)
  {
    hide BoundsText, ShowBounds, Encode, ParseItems;
    forall k | 0 <= k < |items|
      ensures Writable(items[k]) && Spells(Show(items[k], eof), items[k], eof)
    {
      assert items[k] in items;
      if items[k].bounds != [] {
        assert items[k].bounds[0] in items[k].bounds;
        ShowBoundsReads(items[k].bounds[0]);
      }
    }
    ParseText(items, ShowAll(items, eof), eof, sed, room);
  }
}
