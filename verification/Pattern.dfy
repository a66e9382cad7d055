/**
 A reference parser for patterns. It reads a piece and then, by looking ahead, the stars and intervals that
 belong to it; `compile` instead emits code in one pass and patches the opcode of the last piece.
 */
module Pattern {
  import opened Bytes
  import opened Program

  const NEWLINE: byte := '\n' as int
  const DOLLAR: byte := '$' as int
  const LPAREN: byte := '(' as int
  const RPAREN: byte := ')' as int
  const ASTERISK: byte := '*' as int
  const COMMA: byte := ',' as int
  const HYPHEN: byte := '-' as int
  const PERIOD: byte := '.' as int
  const DIGIT_0: byte := '0' as int
  const DIGIT_1: byte := '1' as int
  const DIGIT_9: byte := '9' as int
  const LBRACKET: byte := '[' as int
  const BACKSLASH: byte := '\\' as int
  const RBRACKET: byte := ']' as int
  const CARET: byte := '^' as int
  const LETTER_N: byte := 'n' as int
  const LBRACE: byte := '{' as int
  const RBRACE: byte := '}' as int

  /** The code reported when the pattern ends before it is complete. */
  const OFF_END := -1

  /** The three class encodings: a 16-byte map as it is, one to be negated, and a 32-byte map. */
  datatype ClassKind = Narrow | Negated | Full

  datatype Piece =
    | Char(c: byte)
    | Dot
    | Bracket(kind: ClassKind, bits: set<byte>)
    | OpenGroup(g: Group)
    | CloseGroup(g: Group)
    | BackRef(g: Group)
    | EndOfLine

  /** A piece with its suffixes: starred or not, and the bounds of each interval. */
  datatype Item = Item(piece: Piece, starred: bool, bounds: seq<(byte, byte)>)

  /** A pattern, its delimiter, the `sed` switch and the space in the code buffer. */
  datatype Input = Input(p: seq<byte>, eof: int, sed: bool, room: int)

  /** Groups opened so far, those still open with the innermost last, and the number closed. */
  datatype Groups = Groups(nbra: nat, stack: seq<Group>, closed: nat)

  /** The open groups are numbered in the order of opening, and the others below nbra are the closed ones. */
  ghost predicate GroupsOk(g: Groups) {
    && g.nbra <= NBRA && g.closed == g.nbra - |g.stack|
    && (forall i | 0 <= i < |g.stack| :: g.stack[i] < g.nbra)
    && (forall i, j | 0 <= i < j < |g.stack| :: g.stack[i] < g.stack[j])
  }

  // ---------- Bracket expressions ----------

  datatype Scanned = NoSet(code: int) | GotSet(written: set<byte>, next: nat)

  /** The bytes from lo to hi. */
  function Between(lo: int, hi: byte): set<byte>
    requires 0 <= lo
    decreases hi - lo
  {
    if lo > hi then {} else {lo} + Between(lo + 1, hi)
  }

  /**
   The bytes written from j on, up to the closing bracket. lc is the byte before, 0 at the start; a hyphen
   after it makes a range, unless the closing bracket follows. `fits` says if there is room for 32 bytes.
   */
  ghost function Members(p: seq<byte>, j: nat, lc: byte, fits: bool): Scanned
    decreases |p| - j, 0
  {
    if j >= |p| then NoSet(OFF_END)
    else if p[j] == 0 || p[j] == NEWLINE then NoSet(49)
    else if p[j] >= 128 && !fits then NoSet(50)
    else if p[j] == HYPHEN && lc != 0 then
      if j + 1 >= |p| then NoSet(OFF_END)
      else if p[j + 1] == RBRACKET then GotSet({HYPHEN}, j + 2)
      else if p[j + 1] >= 128 && !fits then NoSet(50)
      else MoreMembers(Between(lc, p[j + 1]) + {p[j + 1]}, p, j + 2, p[j + 1], fits)
    else MoreMembers({p[j]}, p, j + 1, p[j], fits)
  }

  ghost function MoreMembers(s: set<byte>, p: seq<byte>, j: nat, lc: byte, fits: bool): Scanned
    decreases |p| - j, 1
  {
    if j >= |p| then NoSet(OFF_END)
    else if p[j] == RBRACKET then GotSet(s, j + 1)
    else Joined(s, Members(p, j, lc, fits))
  }

  function Joined(s: set<byte>, r: Scanned): Scanned {
    match r
    case NoSet(code) => NoSet(code)
    case GotSet(written, next) => GotSet(s + written, next)
  }

  // ---------- Intervals ----------

  datatype Counted = NoCount(code: int) | GotCount(lo: nat, hi: nat, next: nat)

  predicate IsDigit(c: byte) { DIGIT_0 <= c <= DIGIT_9 }

  /** The decimal number at j, with acc for the digits before it, and where the byte that ends it stands. */
  function Number(p: seq<byte>, j: nat, acc: nat): (r: Counted)
    ensures r.GotCount? ==> j < r.next < |p| && (p[r.next] == BACKSLASH || p[r.next] == COMMA) && r.lo == r.hi
    ensures r.GotCount? ==> IsDigit(p[r.next - 1])
    decreases |p| - j
  {
    if j >= |p| then NoCount(OFF_END)
    else if !IsDigit(p[j]) then NoCount(16)
    else
      var n := 10 * acc + (p[j] - DIGIT_0);
      if j + 1 >= |p| then NoCount(OFF_END)
      else if p[j + 1] == BACKSLASH || p[j + 1] == COMMA then GotCount(n, n, j + 1)
      else Number(p, j + 1, n)
  }

  /** The number that a string of decimal digits spells. */
  function Decimal(ds: seq<byte>): int {
    if ds == [] then 0 else 10 * Decimal(ds[..|ds| - 1]) + (ds[|ds| - 1] - DIGIT_0)
  }

  /** The number read is the one its digits spell. */
  lemma NumberIsDecimal(p: seq<byte>, j: nat)
    requires Number(p, j, 0).GotCount?
    ensures var r := Number(p, j, 0);
            r.lo == Decimal(p[j..r.next]) && forall k | j <= k < r.next :: IsDigit(p[k])
  {
    NumberFrom(p, j, j, 0);
  }

  lemma {:induction false} NumberFrom(p: seq<byte>, j: nat, i: nat, acc: nat)
    requires j <= i <= |p| && acc == Decimal(p[j..i]) && (forall k | j <= k < i :: IsDigit(p[k]))
    requires Number(p, i, acc).GotCount?
    ensures var r := Number(p, i, acc);
            r.lo == Decimal(p[j..r.next]) && forall k | j <= k < r.next :: IsDigit(p[k])
    decreases |p| - i
  {
    assert p[j..i + 1][..i - j] == p[j..i];
    var n := 10 * acc + (p[i] - DIGIT_0);
    if p[i + 1] == BACKSLASH || p[i + 1] == COMMA {
    } else {
      NumberFrom(p, j, i + 1, n);
    }
  }

  /** The closing brace of an interval, after its backslash. */
  function Braced(p: seq<byte>, j: nat, lo: nat, hi: nat): (r: Counted)
  {
    if j >= |p| then NoCount(OFF_END)
    else if p[j] != RBRACE then NoCount(45)
    else if hi < lo then NoCount(46)
    else GotCount(lo, hi, j + 1)
  }

  /** The bounds of the interval whose text starts at j; 255 stands for an open upper bound. */
  function Interval(p: seq<byte>, j: nat): (r: Counted)
    ensures r.GotCount? ==> j + 2 < r.next <= |p| && r.lo <= 254 && r.lo <= r.hi <= 255
    ensures r.GotCount? ==> (r.hi == OPEN_ENDED <==> p[r.next - 3] == COMMA)
  {
    var m := Number(p, j, 0);
    if m.NoCount? then m
    else if m.lo >= 255 then NoCount(11)
    else if p[m.next] == BACKSLASH then Braced(p, m.next + 1, m.lo, m.lo)
    else if m.next + 1 >= |p| then NoCount(OFF_END)
    else if p[m.next + 1] == BACKSLASH then Braced(p, m.next + 2, m.lo, OPEN_ENDED)
    else
      var n := Number(p, m.next + 1, 0);
      if n.NoCount? then n
      else if n.lo >= 255 then NoCount(11)
      else if p[n.next] == COMMA then NoCount(44)
      else Braced(p, n.next + 1, m.lo, n.lo)
  }

  // ---------- Code ----------

  function BaseOp(x: Piece): byte {
    match x
    case Char(_) => CCHR
    case Dot => CDOT
    case Bracket(kind, _) => if kind.Narrow? then CCL else if kind.Negated? then NCCL else CXCL
    case OpenGroup(_) => CBRA
    case CloseGroup(_) => CKET
    case BackRef(_) => CBACK
    case EndOfLine => CDOL
  }

  function MapSize(kind: ClassKind): nat { if kind.Full? then 32 else 16 }

  function Operands(x: Piece): seq<byte> {
    match x
    case Char(c) => [c]
    case Bracket(kind, bits) => Bitmap(bits, MapSize(kind))
    case OpenGroup(g) => [g]
    case CloseGroup(g) => [g]
    case BackRef(g) => [g]
    case _ => []
  }

  /** The number of bytes of code of a bare piece. */
  function Size(x: Piece): nat {
    match x
    case Dot => 1
    case EndOfLine => 1
    case Bracket(kind, _) => 1 + MapSize(kind)
    case _ => 2
  }

  /** `op | STAR` */
  function WithStar(op: byte): byte { op - op % 2 + STAR }

  /** `op | RNGE` */
  function WithRange(op: byte): byte { op - op % 4 + RNGE }

  lemma SetsLowBit(x: bv8)
    ensures (x | 1) as int == x as int - x as int % 2 + 1
  {
    LowMask(x);
    Halving(x);
    Halving(x | 1);
  }

  lemma LowBits(x: bv8)
    ensures (x | 3) >> 1 == (x >> 1) | 1 && (x | 3) & 1 == 1
  {
  }

  lemma SetsLowBits(x: bv8)
    ensures (x | 3) as int == x as int - x as int % 4 + 3
  {
    LowBits(x);
    Halving(x);
    Halving(x | 3);
    SetsLowBit(x >> 1);
  }

  /** The patches are `|` with STAR, which is bit 0, and with RNGE, which is bits 0 and 1. */
  lemma PatchesAreBitwise(x: bv8)
    ensures WithStar(x as int) == (x | (STAR as bv8)) as int
    ensures WithRange(x as int) == (x | (RNGE as bv8)) as int
  {
    SetsLowBit(x);
    SetsLowBits(x);
  }

  /** The opcode of an item: STAR and RNGE are bits that no opcode but CBRA has set. */
  function Opcode(x: Item): byte {
    var base := BaseOp(x.piece);
    if x.bounds != [] then (if base == CBRA then RNGE else base + RNGE)
    else if x.starred then base + STAR
    else base
  }

  function BoundBytes(bounds: seq<(byte, byte)>): seq<byte> {
    if bounds == [] then [] else BoundBytes(bounds[..|bounds| - 1]) + [bounds[|bounds| - 1].0, bounds[|bounds| - 1].1]
  }

  function ItemBytes(x: Item): (r: seq<byte>)
    ensures |r| > 0
  {
    [Opcode(x)] + Operands(x.piece) + BoundBytes(x.bounds)
  }

  function Encode(items: seq<Item>): seq<byte> {
    if items == [] then [] else ItemBytes(items[0]) + Encode(items[1..])
  }

  // ---------- Pieces, suffixes, patterns ----------

  datatype Read = NoPiece(code: int) | GotPiece(piece: Piece, next: nat, g: Groups)

  /** A set with an 8-bit member needs the 32-byte map. */
  predicate Wide(s: set<byte>) { exists x | x in s :: x >= 128 }

  /** The class for the written bytes: a narrow map is negated when tested and holds NUL, a full one when built. */
  ghost function BracketPiece(negated: bool, written: set<byte>): Piece {
    if Wide(written) then Bracket(Full, if negated then Others(written) - {0} else written)
    else if negated then Bracket(Negated, written + {0})
    else Bracket(Narrow, written)
  }

  /** A bracket expression from i, the byte after `[`, when `at` bytes of code precede it. */
  ghost function ReadBracket(src: Input, i: nat, at: nat, g: Groups): (r: Read)
    ensures r.GotPiece? ==> i < r.next
  {
    if at + 17 >= src.room then NoPiece(50)
    else if i >= |src.p| then NoPiece(OFF_END)
    else
      var negated := src.p[i] == CARET;
      var j := if negated then i + 1 else i;
      var r := Members(src.p, j, 0, at + 33 < src.room);
      MembersProgress(src.p, j, 0, at + 33 < src.room);
      BracketRead(negated, r, g)
  }

  ghost function BracketRead(negated: bool, r: Scanned, g: Groups): Read {
    match r
    case NoSet(code) => NoPiece(code)
    case GotSet(written, next) => GotPiece(BracketPiece(negated, written), next, g)
  }

  lemma ReadBracketFrom(src: Input, i: nat, at: nat, g: Groups, negated: bool)
    requires at + 17 < src.room && i < |src.p| && negated == (src.p[i] == CARET)
    ensures ReadBracket(src, i, at, g)
         == BracketRead(negated, Members(src.p, if negated then i + 1 else i, 0, at + 33 < src.room), g)
  {
  }

  lemma {:induction false} MembersProgress(p: seq<byte>, j: nat, lc: byte, fits: bool)
    ensures Members(p, j, lc, fits).GotSet? ==> j + 1 < Members(p, j, lc, fits).next <= |p|
    decreases |p| - j
  {
    if j < |p| {
      if j + 1 < |p| {
        MembersProgress(p, j + 1, p[j], fits);
      }
      if j + 2 < |p| {
        MembersProgress(p, j + 2, p[j + 1], fits);
      }
    }
  }

  /** An escaped character from i, the byte after the backslash. */
  function ReadEscape(src: Input, i: nat, g: Groups): (r: Read)
    ensures r.GotPiece? ==> r.next == i + 1
  {
    if i >= |src.p| then NoPiece(OFF_END)
    else
      var c := src.p[i];
      if c == LPAREN then
        if g.nbra >= NBRA then NoPiece(43)
        else GotPiece(OpenGroup(g.nbra), i + 1, Groups(g.nbra + 1, g.stack + [g.nbra], g.closed))
      else if c == RPAREN then
        if g.stack == [] then NoPiece(42)
        else
          var top := |g.stack| - 1;
          GotPiece(CloseGroup(g.stack[top]), i + 1, Groups(g.nbra, g.stack[..top], g.closed + 1))
      else if c == NEWLINE then NoPiece(36)
      else if c == LETTER_N then GotPiece(Char(NEWLINE), i + 1, g)
      else if DIGIT_1 <= c <= DIGIT_9 then
        if c - DIGIT_1 >= g.closed then NoPiece(25) else GotPiece(BackRef(c - DIGIT_1), i + 1, g)
      else GotPiece(Char(c), i + 1, g)
  }

  /** The piece at i. A star or an interval is read here only where it has nothing to apply to. */
  ghost function ReadPiece(src: Input, i: nat, at: nat, g: Groups): (r: Read)
    requires i < |src.p|
    ensures r.GotPiece? ==> i < r.next
  {
    var c := src.p[i];
    if c == PERIOD then GotPiece(Dot, i + 1, g)
    else if c == DOLLAR && i + 1 < |src.p| && (src.p[i + 1] == src.eof || src.p[i + 1] == NEWLINE) then
      GotPiece(EndOfLine, i + 1, g)
    else if c == LBRACKET then ReadBracket(src, i + 1, at, g)
    else if c == BACKSLASH then ReadEscape(src, i + 1, g)
    else GotPiece(Char(c), i + 1, g)
  }

  datatype Parsed = Reject(code: int) | Accept(items: seq<Item>, nbra: nat, next: nat, newline: bool)

  function Prepend(done: seq<Item>, r: Parsed): Parsed {
    match r
    case Reject(code) => r
    case Accept(items, nbra, next, newline) => Accept(done + items, nbra, next, newline)
  }

  /** A star at i applies to x, unless x is a bare parenthesis. */
  predicate StarApplies(src: Input, i: nat, x: Item) {
    && i < |src.p| && src.p[i] != src.eof && src.p[i] == ASTERISK
    && !((x.piece.OpenGroup? || x.piece.CloseGroup?) && x.bounds == [])
  }

  predicate IntervalApplies(src: Input, i: nat) {
    i + 1 < |src.p| && src.p[i] != src.eof && src.p[i] == BACKSLASH && src.p[i + 1] == LBRACE
  }

  /** The items from i on, when `at` bytes of code have been emitted before. */
  ghost function ParseItems(src: Input, i: nat, at: nat, g: Groups): Parsed
    decreases |src.p| - i, 0
  {
    if at >= src.room then Reject(50)
    else if i >= |src.p| then Reject(OFF_END)
    else if src.p[i] == src.eof || src.p[i] == NEWLINE then
      if src.p[i] != src.eof && src.sed then Reject(36)
      else if g.stack != [] then Reject(42)
      else if src.p[i] == src.eof then Accept([], g.nbra, i + 1, false)
      else Accept([], g.nbra, i, true)
    else
      match ReadPiece(src, i, at, g)
      case NoPiece(code) => Reject(code)
      case GotPiece(piece, next, g') =>
        var x := Item(piece, false, []);
        ParseSuffixes(src, next, at + Size(piece), g', x)
  }

  /** The suffixes of x from i on, and then the items after it. */
  ghost function ParseSuffixes(src: Input, i: nat, at: nat, g: Groups, x: Item): Parsed
    decreases |src.p| - i, 1
  {
    if at < src.room && StarApplies(src, i, x) then
      ParseSuffixes(src, i + 1, at, g, x.(starred := true))
    else if at < src.room && IntervalApplies(src, i) then
      match Interval(src.p, i + 2)
      case NoCount(code) => Reject(code)
      case GotCount(lo, hi, next) => ParseSuffixes(src, next, at + 2, g, x.(bounds := x.bounds + [(lo, hi)]))
    else
      Prepend([x], ParseItems(src, i, at, g))
  }

  const NO_GROUPS := Groups(0, [], 0)

  /** The items of a pattern that is not empty; a leading caret is not one of them. */
  ghost function Parse(src: Input): Parsed
    requires src.p != []
  {
    ParseItems(src, if src.p[0] == CARET then 1 else 0, 0, NO_GROUPS)
  }

  predicate Paren(x: Item) { x.piece.OpenGroup? || x.piece.CloseGroup? }

  /** A parenthesis is starred only after an interval. */
  predicate Proper(x: Item) { Paren(x) && x.bounds == [] ==> !x.starred }

  lemma OpcodeOfParen(x: Item)
    requires Proper(x)
    ensures Opcode(x) == CBRA || Opcode(x) == CKET <==> Paren(x) && x.bounds == []
  {
  }

  lemma OpcodeWithStar(x: Item)
    ensures Opcode(x.(starred := true)) == WithStar(Opcode(x))
  {
  }

  lemma OpcodeWithRange(x: Item, b: (byte, byte))
    ensures Opcode(x.(bounds := x.bounds + [b])) == WithRange(Opcode(x))
  {
  }

  lemma ItemBytesWithRange(x: Item, b: (byte, byte))
    ensures ItemBytes(x.(bounds := x.bounds + [b])) == ItemBytes(x)[0 := WithRange(Opcode(x))] + [b.0, b.1]
  {
    OpcodeWithRange(x, b);
    assert (x.bounds + [b])[..|x.bounds|] == x.bounds;
    assert BoundBytes(x.bounds + [b]) == BoundBytes(x.bounds) + [b.0, b.1];
  }

  lemma ItemBytesSize(x: Piece)
    ensures |ItemBytes(Item(x, false, []))| == Size(x)
  {
  }

  lemma ItemBytesHead(x: Item)
    ensures ItemBytes(x)[0] == Opcode(x)
  {
  }

  lemma ItemBytesWithStar(x: Item)
    ensures ItemBytes(x.(starred := true)) == ItemBytes(x)[0 := WithStar(Opcode(x))]
  {
    OpcodeWithStar(x);
  }

  lemma {:induction false} EncodeAppend(items: seq<Item>, x: Item)
    ensures Encode(items + [x]) == Encode(items) + ItemBytes(x)
  {
    if items == [] {
      assert items + [x] == [x] && Encode([x][1..]) == [];
    } else {
      EncodeAppend(items[1..], x);
      assert (items + [x])[1..] == items[1..] + [x];
    }
  }

  lemma PrependNothing(r: Parsed)
    ensures Prepend([], r) == r
  {
  }

  lemma PrependTwice(done: seq<Item>, x: Item, r: Parsed)
    ensures Prepend(done, Prepend([x], r)) == Prepend(done + [x], r)
  {
    if r.Accept? {
      assert done + ([x] + r.items) == done + [x] + r.items;
    }
  }

  /** All items so far, the last one included. */
  function AllSoFar(done: seq<Item>, cur: Option<Item>): seq<Item> {
    if cur.None? then done else done + [cur.value]
  }

  lemma SuffixesStop(src: Input, i: nat, at: nat, g: Groups, x: Item)
    requires at >= src.room || i >= |src.p|
    ensures ParseSuffixes(src, i, at, g, x) == Reject(if at >= src.room then 50 else OFF_END)
  {
    var r := ParseItems(src, i, at, g);
    assert ParseSuffixes(src, i, at, g, x) == Prepend([x], r);
  }
}
