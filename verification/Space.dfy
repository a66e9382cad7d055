/**
 The space check of `compile`. It comes before each item and asks for one byte, while most items take two. This
 module says exactly which patterns make `compile` store a byte at `endbuf` nevertheless, and which byte.
 */
module Space {
  import opened Bytes
  import opened Program
  import opened Pattern

  /** The second byte of the code of a two-byte piece. */
  function Argument(x: Piece): byte {
    match x
    case Char(c) => c
    case OpenGroup(g) => g
    case CloseGroup(g) => g
    case BackRef(g) => g
    case _ => 0
  }

  /**
   The second bound that is stored for the interval at j. It is stored before the closing brace and the order
   of the bounds are checked, unless there is only one number.
   */
  function SecondBound(p: seq<byte>, j: nat): Option<byte> {
    var m := Number(p, j, 0);
    if m.NoCount? || m.lo >= 255 then None
    else if p[m.next] == BACKSLASH then
      if m.next + 1 < |p| && p[m.next + 1] == RBRACE then Some(m.lo) else None
    else if m.next + 1 >= |p| then None
    else if p[m.next + 1] == BACKSLASH then Some(OPEN_ENDED)
    else
      var n := Number(p, m.next + 1, 0);
      if n.NoCount? || n.lo >= 255 then None else Some(n.lo)
  }

  /** The byte stored at the end of the space by the items from i on, when `at` bytes of code precede them. */
  ghost function SpilledItems(src: Input, i: nat, at: nat, g: Groups): Option<byte>
    decreases |src.p| - i, 0
  {
    if at >= src.room || i >= |src.p| || src.p[i] == src.eof || src.p[i] == NEWLINE then None
    else
      match ReadPiece(src, i, at, g)
      case NoPiece(_) => None
      case GotPiece(piece, next, g') =>
        if at + Size(piece) > src.room then Some(Argument(piece))
        else SpilledSuffixes(src, next, at + Size(piece), g', Item(piece, false, []))
  }

  /** The byte stored there by the suffixes of x from i on and the items after it. */
  ghost function SpilledSuffixes(src: Input, i: nat, at: nat, g: Groups, x: Item): Option<byte>
    decreases |src.p| - i, 1
  {
    if at < src.room && StarApplies(src, i, x) then SpilledSuffixes(src, i + 1, at, g, x.(starred := true))
    else if at < src.room && IntervalApplies(src, i) then
      if at + 2 > src.room then SecondBound(src.p, i + 2)
      else
        match Interval(src.p, i + 2)
        case NoCount(_) => None
        case GotCount(lo, hi, next) => SpilledSuffixes(src, next, at + 2, g, x.(bounds := x.bounds + [(lo, hi)]))
    else SpilledItems(src, i, at, g)
  }

  /** What a pattern that is not empty makes `compile` store at `endbuf`. */
  ghost function Spilled(src: Input): Option<byte>
    requires src.p != []
  {
    SpilledItems(src, if src.p[0] == CARET then 1 else 0, 0, NO_GROUPS)
  }

  ghost predicate Overruns(src: Input)
    requires src.p != []
  {
    Spilled(src).Some?
  }

  /** What remains to be stored there after the item cur. */
  ghost function StillSpilled(src: Input, i: nat, at: nat, cur: Option<Item>, g: Groups): Option<byte> {
    match cur
    case None => SpilledItems(src, i, at, g)
    case Some(x) => SpilledSuffixes(src, i, at, g, x)
  }

  lemma SpillStops(src: Input, i: nat, at: nat, cur: Option<Item>, g: Groups)
    requires at >= src.room || i >= |src.p| || src.p[i] == src.eof || src.p[i] == NEWLINE
    ensures StillSpilled(src, i, at, cur, g) == None
  {
    if cur.Some? {
      assert SpilledSuffixes(src, i, at, g, cur.value) == SpilledItems(src, i, at, g);
    }
  }

  lemma SpillStar(src: Input, i: nat, at: nat, x: Item, g: Groups)
    requires at < src.room && StarApplies(src, i, x)
    ensures StillSpilled(src, i, at, Some(x), g) == StillSpilled(src, i + 1, at, Some(x.(starred := true)), g)
  {
  }

  lemma SpillInterval(src: Input, i: nat, at: nat, x: Item, g: Groups)
    requires at < src.room && !StarApplies(src, i, x) && IntervalApplies(src, i)
    ensures StillSpilled(src, i, at, Some(x), g) ==
            if at + 2 > src.room then SecondBound(src.p, i + 2)
            else match Interval(src.p, i + 2)
                 case NoCount(_) => None
                 case GotCount(lo, hi, next) =>
                   StillSpilled(src, next, at + 2, Some(x.(bounds := x.bounds + [(lo, hi)])), g)
  {
  }

  lemma SpillItem(src: Input, i: nat, at: nat, cur: Option<Item>, g: Groups)
    requires at < src.room && i < |src.p| && src.p[i] != src.eof && src.p[i] != NEWLINE
    requires cur.Some? ==> !StarApplies(src, i, cur.value) && !IntervalApplies(src, i)
    ensures StillSpilled(src, i, at, cur, g) ==
            match ReadPiece(src, i, at, g)
            case NoPiece(_) => None
            case GotPiece(piece, next, g') =>
              if at + Size(piece) > src.room then Some(Argument(piece))
              else StillSpilled(src, next, at + Size(piece), Some(Item(piece, false, [])), g')
  {
    if cur.Some? {
      assert SpilledSuffixes(src, i, at, g, cur.value) == SpilledItems(src, i, at, g);
    }
  }

  /** Both bounds of an accepted interval are stored. */
  lemma AcceptedBounds(p: seq<byte>, j: nat)
    ensures Interval(p, j).GotCount? ==> SecondBound(p, j) == Some(Interval(p, j).hi)
  {
  }

  // ---------- Accepted patterns fit ----------

  /** The code of an accepted pattern and its end mark stay below the end of the space. */
  lemma {:induction false} AcceptedFits(src: Input, i: nat, at: nat, g: Groups)
    requires ParseItems(src, i, at, g).Accept?
    ensures at + |Encode(ParseItems(src, i, at, g).items)| < src.room && SpilledItems(src, i, at, g) == None
    decreases |src.p| - i, 0
  {
    if src.p[i] != src.eof && src.p[i] != NEWLINE {
      var r := ReadPiece(src, i, at, g);
      ItemBytesSize(r.piece);
      SuffixesFit(src, r.next, at, at + Size(r.piece), r.g, Item(r.piece, false, []));
    }
  }

  lemma {:induction false} SuffixesFit(src: Input, i: nat, base: nat, at: nat, g: Groups, x: Item)
    requires at == base + |ItemBytes(x)| && ParseSuffixes(src, i, at, g, x).Accept?
    ensures at < src.room && base + |Encode(ParseSuffixes(src, i, at, g, x).items)| < src.room
    ensures SpilledSuffixes(src, i, at, g, x) == None
    decreases |src.p| - i, 1
  {
    if at < src.room && StarApplies(src, i, x) {
      ItemBytesWithStar(x);
      SuffixesFit(src, i + 1, base, at, g, x.(starred := true));
    } else if at < src.room && IntervalApplies(src, i) {
      var r := Interval(src.p, i + 2);
      ItemBytesWithRange(x, (r.lo, r.hi));
      SuffixesFit(src, r.next, base, at + 2, g, x.(bounds := x.bounds + [(r.lo, r.hi)]));
    } else {
      AcceptedFits(src, i, at, g);
      var rest := ParseItems(src, i, at, g).items;
      assert ([x] + rest)[1..] == rest;
    }
  }

  /** An accepted pattern never overruns; one that overruns is rejected. */
  lemma OverrunIsRejected(src: Input)
    requires src.p != []
    ensures Overruns(src) ==> Parse(src).Reject?
    ensures Parse(src).Accept? ==> |Encode(Parse(src).items)| + 1 <= src.room
  {
    if Parse(src).Accept? {
      AcceptedFits(src, if src.p[0] == CARET then 1 else 0, 0, NO_GROUPS);
    }
  }

  // ---------- The check is not enough ----------

  /** A byte that stands for itself wherever it is. */
  predicate Plain(src: Input, c: byte) {
    && c != src.eof && c != NEWLINE && c != PERIOD && c != DOLLAR && c != LBRACKET && c != BACKSLASH && c != ASTERISK
    && c != CARET
  }

  /** n plain characters in a space of 2 * n - 1 bytes: the last of them is stored at the end of the space. */
  lemma {:induction false} LiteralsOverrun(src: Input, i: nat, at: nat, cur: Option<Item>, g: Groups, n: nat)
    requires 0 < n && i + n <= |src.p| && src.room == at + 2 * n - 1
    requires forall k | i <= k < i + n :: Plain(src, src.p[k])
    ensures StillSpilled(src, i, at, cur, g) == Some(src.p[i + n - 1])
    decreases n
  {
    SpillItem(src, i, at, cur, g);
    if n > 1 {
      LiteralsOverrun(src, i + 1, at + 2, Some(Item(Char(src.p[i]), false, [])), g, n - 1);
    }
  }

  /**
   So the check does not keep `compile` below `endbuf`: n characters overrun a space of 2 * n - 1 bytes, and
   with a dot before them a space of 2 * n bytes.
   */
  lemma CheckIsNotEnough(src: Input, n: nat)
    requires 0 < n && src.p != []
    requires var i := if src.p[0] == PERIOD then 1 else 0;
             && src.eof != PERIOD && src.room == 2 * n - 1 + i
             && i + n <= |src.p| && forall k | i <= k < i + n :: Plain(src, src.p[k])
    ensures Overruns(src) && Parse(src).Reject?
  {
    if src.p[0] == PERIOD {
      SpillItem(src, 0, 0, None, NO_GROUPS);
      LiteralsOverrun(src, 1, 1, Some(Item(Dot, false, [])), NO_GROUPS, n);
    } else {
      LiteralsOverrun(src, 0, 0, None, NO_GROUPS, n);
    }
    OverrunIsRejected(src);
  }
}
