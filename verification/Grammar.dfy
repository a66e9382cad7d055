/**
 Which texts `compile` accepts, and as what: a grammar without scanning, proved equal to the reference parser. A
 derivation says where the pieces and suffixes of a pattern stand; it may be chosen in any way that fits the text.
 */
module Grammar {
  import opened Bytes
  import opened Program
  import opened Pattern
  import opened Space
  import opened Grouping
  import opened Brackets
  import opened RoundTrip

  // ---------- Pieces ----------

  predicate Ends(src: Input, i: nat) { i < |src.p| && (src.p[i] == src.eof || src.p[i] == NEWLINE) }

  /** A byte that is a piece by itself: a dollar sign only where the pattern does not end after it. */
  predicate StandsAlone(src: Input, i: nat) {
    && i < |src.p| && src.p[i] != PERIOD && src.p[i] != LBRACKET && src.p[i] != BACKSLASH
    && (src.p[i] == DOLLAR ==> !Ends(src, i + 1))
  }

  /** What a backslash before c stands for, other than a parenthesis, a back-reference or the start of an interval. */
  predicate EscapedAs(c: byte, x: byte) {
    if c == LETTER_N then x == NEWLINE
    else x == c && c != LPAREN && c != RPAREN && c != NEWLINE && !(DIGIT_1 <= c <= DIGIT_9)
  }

  /** The bracket expression from i to n denotes the class x. */
  ghost predicate ClassFrom(p: seq<byte>, i: nat, n: nat, x: Piece)
    requires x.Bracket?
  {
    && i + 1 < n <= |p| && p[i] == LBRACKET
    && var negated := p[i + 1] == CARET;
       var j := if negated then i + 2 else i + 1;
       && Closes(p, j, n - 1) && Clean(p, j, n - 1, j, x.kind.Full?)
       && x == BracketPiece(negated, Listed(p, j, n - 1))
  }

  /** The text from i to n is a spelling of the piece x. */
  ghost predicate PieceFrom(src: Input, i: nat, n: nat, x: Piece) {
    && i < n <= |src.p| && src.p[i] != src.eof && src.p[i] != NEWLINE
    && var c, escaped := src.p[i], n == i + 2 && src.p[i] == BACKSLASH;
       match x
       case Bracket(_, _) => ClassFrom(src.p, i, n, x)
       case Char(x) => (n == i + 1 && c == x && StandsAlone(src, i)) || (escaped && EscapedAs(src.p[i + 1], x))
       case Dot => n == i + 1 && c == PERIOD
       case OpenGroup(_) => escaped && src.p[i + 1] == LPAREN
       case CloseGroup(_) => escaped && src.p[i + 1] == RPAREN
       case BackRef(g) => escaped && src.p[i + 1] == DIGIT_1 + g
       case EndOfLine => n == i + 1 && c == DOLLAR && Ends(src, n)
  }

  /** A class is wide exactly if there is an 8-bit byte in its text. */
  lemma WideExactly(p: seq<byte>, j: nat, n: int)
    requires Closes(p, j, n)
    ensures Wide(Listed(p, j, n)) <==> exists k | j <= k < n :: p[k] >= 128
  {
    if Wide(Listed(p, j, n)) {
      var x :| x in Listed(p, j, n) && x >= 128;
      var k :| j <= k < n && Gives(p, j, n, k, x);
      assert MakesRange(p, j, n, k) ==> p[k + 1] >= 128;
    }
    forall k | j <= k < n && p[k] >= 128
      ensures p[k] in Listed(p, j, n)
    {
      assert Gives(p, j, n, k, p[k]);
    }
  }

  lemma CleanExactly(p: seq<byte>, j: nat, n: int, fits: bool)
    requires Closes(p, j, n)
    ensures Clean(p, j, n, j, fits) <==> Clean(p, j, n, j, true) && (Wide(Listed(p, j, n)) ==> fits)
  {
    WideExactly(p, j, n);
    if Clean(p, j, n, j, fits) {
      forall k | j <= k < n
        ensures Admitted(p, j, n, k, true) && (p[k] >= 128 ==> fits)
      {
        assert Admitted(p, j, n, k, fits);
      }
    } else if Clean(p, j, n, j, true) {
      var k :| j <= k < n && !Admitted(p, j, n, k, fits);
      assert Admitted(p, j, n, k, true);
    }
  }

  lemma MembersExactly(p: seq<byte>, j: nat, fits: bool, s: set<byte>, n: nat)
    ensures Members(p, j, 0, fits) == GotSet(s, n) <==>
            n > 0 && Closes(p, j, n - 1) && Clean(p, j, n - 1, j, fits) && s == Listed(p, j, n - 1)
  {
    BracketAccepted(p, j, fits);
    if Members(p, j, 0, fits).GotSet? {
      BracketDenotes(p, j, fits);
      var r := Members(p, j, 0, fits);
      MembersAccepted(p, j, r.next - 1, j, 0, fits);
      assert r.written == Listed(p, j, r.next - 1);
    }
  }

  /** Bracket expressions are read as the classes they denote. */
  lemma ClassExactly(src: Input, i: nat, at: nat, g: Groups, x: Piece, n: nat)
    requires x.Bracket? && i < |src.p| && src.p[i] == LBRACKET
    ensures ReadPiece(src, i, at, g) == GotPiece(x, n, g) <==> ClassFrom(src.p, i, n, x) && at + Size(x) < src.room
  {
    if at + 17 < src.room && i + 1 < |src.p| {
      var negated, fits := src.p[i + 1] == CARET, at + 33 < src.room;
      var j := if negated then i + 2 else i + 1;
      ReadBracketFrom(src, i + 1, at, g, negated);
      var r := Members(src.p, j, 0, fits);
      if r.GotSet? {
        MembersExactly(src.p, j, fits, r.written, r.next);
        CleanExactly(src.p, j, r.next - 1, fits);
        CleanExactly(src.p, j, r.next - 1, Wide(r.written));
      }
      if ClassFrom(src.p, i, n, x) {
        var s := Listed(src.p, j, n - 1);
        CleanExactly(src.p, j, n - 1, fits);
        CleanExactly(src.p, j, n - 1, x.kind.Full?);
        MembersExactly(src.p, j, fits, s, n);
      }
    }
  }

  /** Every piece is read as the grammar says, a class only if there is room for it. */
  lemma PieceExactly(src: Input, i: nat, at: nat, g: Groups, x: Piece, n: nat, g': Groups)
    requires i < |src.p| && !Ends(src, i)
    ensures ReadPiece(src, i, at, g) == GotPiece(x, n, g') <==>
            && PieceFrom(src, i, n, x) && AfterPiece(x, g) == Some(g')
            && (x.Bracket? ==> at + Size(x) < src.room)
  {
    if src.p[i] == LBRACKET {
      if x.Bracket? {
        ClassExactly(src, i, at, g, x, n);
      }
    }
  }

  // ---------- Suffixes ----------

  datatype Suffix = Star | Count(lo: byte, hi: byte)

  /** A suffix and where it ends. */
  datatype Mark = Mark(suffix: Suffix, end: nat)

  function Marked(x: Item, s: Suffix): Item {
    match s
    case Star => x.(starred := true)
    case Count(lo, hi) => x.(bounds := x.bounds + [(lo, hi)])
  }

  ghost predicate IntervalFrom(p: seq<byte>, j: nat, n: nat, lo: nat, hi: nat) {
    exists a: nat, b: nat :: IntervalText(p, j, a, b, lo, hi) && n == b + 2
  }

  /** A star stands at i and applies to x, the item so far: it does not apply to a parenthesis without an interval. */
  predicate StarFollows(src: Input, i: nat, x: Item) {
    && i < |src.p| && src.p[i] != src.eof && src.p[i] == '*' as int
    && !(x.bounds == [] && (x.piece.OpenGroup? || x.piece.CloseGroup?))
  }

  /** An interval begins at i. */
  predicate IntervalFollows(src: Input, i: nat) {
    i + 1 < |src.p| && src.p[i] != src.eof && src.p[i] == '\\' as int && src.p[i + 1] == '{' as int
  }

  /** The suffix m stands at i and applies to x. */
  ghost predicate MarkAt(src: Input, i: nat, x: Item, m: Mark) {
    match m.suffix
    case Star => StarFollows(src, i, x) && m.end == i + 1
    case Count(lo, hi) => IntervalFollows(src, i) && IntervalFrom(src.p, i + 2, m.end, lo, hi)
  }

  /** No suffix for x begins at i. */
  predicate NoMark(src: Input, i: nat, x: Item) { !StarFollows(src, i, x) && !IntervalFollows(src, i) }

  /** The suffixes of x stand one after the other from i on, and after them there is no further one. */
  ghost predicate MarksAt(src: Input, i: nat, x: Item, ms: seq<Mark>)
    decreases |ms|
  {
    if ms == [] then NoMark(src, i, x)
    else MarkAt(src, i, x, ms[0]) && MarksAt(src, ms[0].end, Marked(x, ms[0].suffix), ms[1..])
  }

  function AfterMarks(i: nat, ms: seq<Mark>): nat { if ms == [] then i else ms[|ms| - 1].end }

  function WithMarks(x: Item, ms: seq<Mark>): Item
    decreases |ms|
  {
    if ms == [] then x else WithMarks(Marked(x, ms[0].suffix), ms[1..])
  }

  lemma MarkedSize(x: Item, s: Suffix)
    ensures |ItemBytes(Marked(x, s))| == |ItemBytes(x)| + if s.Star? then 0 else 2
  {
    match s
    case Star => ItemBytesWithStar(x);
    case Count(lo, hi) => ItemBytesWithRange(x, (lo, hi));
  }

  lemma {:induction false} MarksGrow(x: Item, ms: seq<Mark>)
    ensures |ItemBytes(x)| <= |ItemBytes(WithMarks(x, ms))|
    decreases |ms|
  {
    if ms == [] {
    } else {
      MarkedSize(x, ms[0].suffix);
      MarksGrow(Marked(x, ms[0].suffix), ms[1..]);
    }
  }

  /** A suffix at i takes the parser to its end. */
  lemma MarkRead(src: Input, i: nat, at: nat, g: Groups, x: Item, m: Mark)
    requires MarkAt(src, i, x, m) && at < src.room
    ensures ParseSuffixes(src, i, at, g, x) ==
            ParseSuffixes(src, m.end, if m.suffix.Star? then at else at + 2, g, Marked(x, m.suffix))
    ensures i < m.end <= |src.p|
  {
    match m.suffix
    case Star =>
    case Count(lo, hi) => IntervalExactly(src.p, i + 2, lo, hi, m.end);
  }

  lemma NoMarkRead(src: Input, i: nat, at: nat, g: Groups, x: Item)
    requires NoMark(src, i, x)
    ensures ParseSuffixes(src, i, at, g, x) == Prepend([x], ParseItems(src, i, at, g))
  {
  }

  lemma {:induction false} MarksRead(src: Input, i: nat, base: nat, at: nat, g: Groups, x: Item, ms: seq<Mark>)
    requires MarksAt(src, i, x, ms) && at == base + |ItemBytes(x)|
    requires base + |ItemBytes(WithMarks(x, ms))| < src.room
    ensures ParseSuffixes(src, i, at, g, x) ==
            Prepend([WithMarks(x, ms)], ParseItems(src, AfterMarks(i, ms), base + |ItemBytes(WithMarks(x, ms))|, g))
    decreases |ms|
  {
    hide ItemBytes, ParseSuffixes, ParseItems, MarkAt, NoMark;
    if ms == [] {
      NoMarkRead(src, i, at, g, x);
    } else {
      var m := ms[0];
      MarksGrow(x, ms);
      MarkedSize(x, m.suffix);
      MarkRead(src, i, at, g, x, m);
      MarksRead(src, m.end, base, if m.suffix.Star? then at else at + 2, g, Marked(x, m.suffix), ms[1..]);
    }
  }

  // ---------- Patterns ----------

  /** A piece that ends at mid, and its suffixes. */
  datatype Phrase = Phrase(piece: Piece, mid: nat, marks: seq<Mark>)

  function ItemOf(f: Phrase): Item { WithMarks(Item(f.piece, false, []), f.marks) }

  function EndOf(f: Phrase): nat { AfterMarks(f.mid, f.marks) }

  function ItemsOf(fs: seq<Phrase>): seq<Item> {
    if fs == [] then [] else [ItemOf(fs[0])] + ItemsOf(fs[1..])
  }

  function AfterPhrases(i: nat, fs: seq<Phrase>): nat { if fs == [] then i else EndOf(fs[|fs| - 1]) }

  ghost predicate PhraseAt(src: Input, i: nat, f: Phrase) {
    PieceFrom(src, i, f.mid, f.piece) && MarksAt(src, f.mid, Item(f.piece, false, []), f.marks)
  }

  ghost predicate PhrasesAt(src: Input, i: nat, fs: seq<Phrase>)
    decreases |fs|
  {
    fs == [] || (PhraseAt(src, i, fs[0]) && PhrasesAt(src, EndOf(fs[0]), fs[1..]))
  }

  /** The delimiter stands at i, or a newline that may end the pattern and is left for the caller. */
  predicate EndsAt(src: Input, i: nat, next: nat, newline: bool) {
    && Ends(src, i) && newline == (src.p[i] != src.eof) && (newline ==> !src.sed)
    && next == if newline then i else i + 1
  }

  /** The text from i on is a pattern: phrases up to its end, with groups that nest, in the space there is. */
  ghost predicate PatternFrom(src: Input, i: nat, at: nat, g: Groups, fs: seq<Phrase>, r: Parsed) {
    match r
    case Reject(_) => false
    case Accept(items, nbra, next, newline) =>
      && PhrasesAt(src, i, fs) && EndsAt(src, AfterPhrases(i, fs), next, newline)
      && items == ItemsOf(fs) && at + |Encode(items)| < src.room
      && var g' := AfterItems(items, g); g'.Some? && g'.value.stack == [] && g'.value.nbra == nbra
  }

  lemma PieceStart(src: Input, i: nat, n: nat, x: Piece)
    requires PieceFrom(src, i, n, x)
    ensures i < n <= |src.p| && !Ends(src, i)
  {
  }

  lemma {:induction false} MarksKeepPiece(x: Item, ms: seq<Mark>)
    ensures WithMarks(x, ms).piece == x.piece
    decreases |ms|
  {
    if ms == [] {
    } else {
      MarksKeepPiece(Marked(x, ms[0].suffix), ms[1..]);
    }
  }

  lemma PhraseReads(src: Input, i: nat, at: nat, g: Groups, f: Phrase)
    requires PhraseAt(src, i, f) && AfterPiece(f.piece, g).Some? && at + |ItemBytes(ItemOf(f))| < src.room
    ensures ParseItems(src, i, at, g) ==
            Prepend([ItemOf(f)], ParseItems(src, EndOf(f), at + |ItemBytes(ItemOf(f))|, AfterPiece(f.piece, g).value))
  {
    hide ItemBytes, ReadPiece, PieceFrom;
    var x, g' := Item(f.piece, false, []), AfterPiece(f.piece, g).value;
    PieceStart(src, i, f.mid, f.piece);
    ItemBytesSize(f.piece);
    MarksGrow(x, f.marks);
    PieceExactly(src, i, at, g, f.piece, f.mid, g');
    MarksRead(src, f.mid, at, at + Size(f.piece), g', x, f.marks);
  }

  lemma PatternStep(src: Input, i: nat, at: nat, g: Groups, fs: seq<Phrase>, r: Parsed)
    requires PatternFrom(src, i, at, g, fs, r) && fs != []
    ensures PhraseAt(src, i, fs[0]) && AfterPiece(fs[0].piece, g).Some? && r.Accept? && r.items != []
    ensures var rest := r.(items := r.items[1..]);
            && at + |ItemBytes(ItemOf(fs[0]))| < src.room && r == Prepend([ItemOf(fs[0])], rest)
            && PatternFrom(src, EndOf(fs[0]), at + |ItemBytes(ItemOf(fs[0]))|, AfterPiece(fs[0].piece, g).value,
                           fs[1..], rest)
  {
    hide ItemBytes, PhraseAt;
    MarksKeepPiece(Item(fs[0].piece, false, []), fs[0].marks);
    assert ItemsOf(fs)[1..] == ItemsOf(fs[1..]);
  }

  lemma EmptyReads(src: Input, i: nat, at: nat, g: Groups, r: Parsed)
    requires PatternFrom(src, i, at, g, [], r)
    ensures ParseItems(src, i, at, g) == r
  {
  }

  /** A text that the grammar derives is parsed as it says. */
  lemma {:induction false} PatternReads(src: Input, i: nat, at: nat, g: Groups, fs: seq<Phrase>, r: Parsed)
    requires PatternFrom(src, i, at, g, fs, r)
    ensures ParseItems(src, i, at, g) == r
    decreases |fs|
  {
    hide PatternFrom, PhraseAt, ItemBytes, ParseItems, AfterPiece;
    if fs == [] {
      EmptyReads(src, i, at, g, r);
    } else {
      PatternStep(src, i, at, g, fs, r);
      var f, rest := fs[0], r.(items := r.items[1..]);
      PhraseReads(src, i, at, g, f);
      PatternReads(src, EndOf(f), at + |ItemBytes(ItemOf(f))|, AfterPiece(f.piece, g).value, fs[1..], rest);
    }
  }

  lemma EmptyPattern(src: Input, i: nat, at: nat, g: Groups)
    requires ParseItems(src, i, at, g).Accept? && Ends(src, i)
    ensures PatternFrom(src, i, at, g, [], ParseItems(src, i, at, g))
  {
  }

  /** The first piece of an accepted text, and the suffixes and items after it. */
  lemma FirstPiece(src: Input, i: nat, at: nat, g: Groups) returns (x: Piece, n: nat, g': Groups)
    requires ParseItems(src, i, at, g).Accept? && !Ends(src, i)
    ensures i < n <= |src.p| && PieceFrom(src, i, n, x) && AfterPiece(x, g) == Some(g')
    ensures ParseItems(src, i, at, g) == ParseSuffixes(src, n, at + Size(x), g', Item(x, false, []))
  {
    var r := ReadPiece(src, i, at, g);
    x, n, g' := r.piece, r.next, r.g;
    ItemBytesSize(x);
    SuffixesFit(src, n, at, at + Size(x), g', Item(x, false, []));
    PieceExactly(src, i, at, g, x, n, g');
    PieceStart(src, i, n, x);
  }

  /** An accepted text is derived by the grammar. */
  lemma {:induction false} PatternIsDerived(src: Input, i: nat, at: nat, g: Groups) returns (fs: seq<Phrase>)
    requires ParseItems(src, i, at, g).Accept?
    ensures PatternFrom(src, i, at, g, fs, ParseItems(src, i, at, g))
    decreases |src.p| - i, 0
  {
    hide ItemBytes, ParseItems, ParseSuffixes, PatternFrom, PieceFrom, MarksAt, AfterPiece, Encode, WithMarks, Size;
    if Ends(src, i) {
      fs := [];
      EmptyPattern(src, i, at, g);
    } else {
      AcceptedFits(src, i, at, g);
      var x, n, g' := FirstPiece(src, i, at, g);
      ItemBytesSize(x);
      var ms, rest := MarksAreDerived(src, n, at, at + Size(x), g', Item(x, false, []));
      fs := PatternCons(src, i, at, g, Phrase(x, n, ms), rest, ParseItems(src, i, at, g));
    }
  }

  lemma PatternCons(src: Input, i: nat, at: nat, g: Groups, f: Phrase, rest: seq<Phrase>, r: Parsed)
    returns (fs: seq<Phrase>)
    requires PhraseAt(src, i, f) && AfterPiece(f.piece, g).Some? && r.Accept? && r.items != []
    requires r.items[0] == ItemOf(f) && at + |Encode(r.items)| < src.room
    requires PatternFrom(src, EndOf(f), at + |ItemBytes(ItemOf(f))|, AfterPiece(f.piece, g).value, rest,
                         r.(items := r.items[1..]))
    ensures PatternFrom(src, i, at, g, fs, r)
  {
    hide ItemBytes, PhraseAt;
    fs := [f] + rest;
    assert fs[1..] == rest && r.items == [r.items[0]] + r.items[1..];
    MarksKeepPiece(Item(f.piece, false, []), f.marks);
  }

  /** The next suffix of an accepted text, if there is one. */
  lemma NextMark(src: Input, i: nat, at: nat, g: Groups, x: Item) returns (m: Mark)
    requires at < src.room && ParseSuffixes(src, i, at, g, x).Accept? && !NoMark(src, i, x)
    ensures MarkAt(src, i, x, m)
  {
    if StarApplies(src, i, x) {
      m := Mark(Star, i + 1);
    } else {
      var r := Interval(src.p, i + 2);
      m := Mark(Count(r.lo, r.hi), r.next);
      IntervalExactly(src.p, i + 2, r.lo, r.hi, r.next);
    }
  }

  lemma NoMoreMarks(src: Input, i: nat, at: nat, g: Groups, x: Item)
    requires at < src.room && ParseSuffixes(src, i, at, g, x).Accept? && NoMark(src, i, x)
    ensures ParseItems(src, i, at, g).Accept?
    ensures var r := ParseSuffixes(src, i, at, g, x);
            && r.items != [] && r.items[0] == x && r.(items := r.items[1..]) == ParseItems(src, i, at, g)
  {
    var rest := ParseItems(src, i, at, g);
    assert ([x] + rest.items)[1..] == rest.items;
  }

  lemma {:induction false} MarksAreDerived(src: Input, i: nat, base: nat, at: nat, g: Groups, x: Item)
    returns (ms: seq<Mark>, fs: seq<Phrase>)
    requires at == base + |ItemBytes(x)| && ParseSuffixes(src, i, at, g, x).Accept?
    ensures var r := ParseSuffixes(src, i, at, g, x);
            && MarksAt(src, i, x, ms) && r.items != [] && r.items[0] == WithMarks(x, ms)
            && PatternFrom(src, AfterMarks(i, ms), base + |ItemBytes(WithMarks(x, ms))|, g, fs,
                           r.(items := r.items[1..]))
    decreases |src.p| - i, 1
  {
    hide ItemBytes, PatternFrom, MarkAt, NoMark, ParseSuffixes, ParseItems, Encode;
    SuffixesFit(src, i, base, at, g, x);
    if NoMark(src, i, x) {
      NoMoreMarks(src, i, at, g, x);
      ms := [];
      fs := PatternIsDerived(src, i, at, g);
    } else {
      var m := NextMark(src, i, at, g, x);
      MarkRead(src, i, at, g, x, m);
      MarkedSize(x, m.suffix);
      var tail;
      tail, fs := MarksAreDerived(src, m.end, base, if m.suffix.Star? then at else at + 2, g, Marked(x, m.suffix));
      ms := [m] + tail;
      assert ms[1..] == tail;
    }
  }

  /** A derivation of the whole pattern; a leading caret is not part of it. */
  ghost predicate Derives(src: Input, fs: seq<Phrase>, r: Parsed)
    requires src.p != []
  {
    PatternFrom(src, if src.p[0] == CARET then 1 else 0, 0, NO_GROUPS, fs, r)
  }

  /** A pattern is accepted, as these items and with this end, exactly if the grammar derives it. */
  lemma ParseExactly(src: Input, r: Parsed)
    requires src.p != [] && r.Accept?
    ensures Parse(src) == r <==> exists fs :: Derives(src, fs, r)
  {
    hide PatternFrom, ParseItems;
    var i := if src.p[0] == CARET then 1 else 0;
    if Parse(src) == r {
      var fs := PatternIsDerived(src, i, 0, NO_GROUPS);
      assert Derives(src, fs, r);
    }
    forall fs | Derives(src, fs, r)
      ensures Parse(src) == r
    {
      PatternReads(src, i, 0, NO_GROUPS, fs, r);
    }
  }
}
