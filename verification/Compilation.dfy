/** What a parsed pattern means, and that the code of a supported pattern decodes to exactly that. */
module Compilation {
  import opened Bytes
  import opened Program
  import opened Pattern

  /** The bytes a bracket expression accepts; a negated one never accepts NUL. */
  ghost function Denoted(negated: bool, written: set<byte>): set<byte> {
    if negated then Others(written) - {0} else written
  }

  predicate OneChar(x: Piece) { x.Char? || x.Dot? || x.Bracket? }

  ghost function AtomOf(x: Piece): Atom
    requires OneChar(x)
  {
    match x
    case Char(c) => Literal(c)
    case Dot => Any
    case Bracket(kind, bits) =>
      var low := set c | c in bits && c < 128;
      if kind.Narrow? then Class(low) else if kind.Negated? then Class(Others(low)) else Class(bits)
  }

  /** Whichever encoding is chosen, a class accepts exactly the denoted bytes. */
  lemma ClassDenotes(negated: bool, written: set<byte>)
    ensures AtomOf(BracketPiece(negated, written)) == Class(Denoted(negated, written))
  {
    assert AtomOf(BracketPiece(negated, written)).members == Denoted(negated, written);
  }

  /** Suffixes that `advance` has arms for: at most one interval, and that on a one-character piece. */
  predicate SupportedItem(x: Item) {
    && (if OneChar(x.piece) then |x.bounds| <= 1 else x.bounds == [])
    && (x.starred ==> OneChar(x.piece) || x.piece.BackRef?)
    && (x.bounds != [] ==> Span(x.bounds[0].0, x.bounds[0].1) >= 0)
  }

  /** The element of a supported item. An interval wins over a star. */
  ghost function ElemOf(x: Item): Elem
    requires SupportedItem(x)
  {
    match x.piece
    case OpenGroup(g) => Open(g)
    case CloseGroup(g) => Close(g)
    case BackRef(g) => if x.starred then BackMany(g) else Back(g)
    case EndOfLine => Eol
    case _ =>
      if x.bounds != [] then Many(AtomOf(x.piece), x.bounds[0].0, AtMost(Span(x.bounds[0].0, x.bounds[0].1)))
      else if x.starred then Many(AtomOf(x.piece), 0, Unlimited)
      else One(AtomOf(x.piece))
  }

  ghost predicate Supported(items: seq<Item>) { forall x | x in items :: SupportedItem(x) }

  ghost function Elems(items: seq<Item>): (es: seq<Elem>)
    requires Supported(items)
  {
    if items == [] then [] else [ElemOf(items[0])] + Elems(items[1..])
  }

  /** The byte code in numbers: the opcode with 1 for a star or 3 for an interval, the operand, the two bounds. */
  lemma CodeLayout(x: Item)
    requires SupportedItem(x)
    ensures var op := match x.piece
                      case Char(_) => 4
                      case Dot => 8
                      case Bracket(kind, _) => (match kind case Narrow => 12 case Full => 16 case Negated => 40)
                      case OpenGroup(_) => 2
                      case CloseGroup(_) => 24
                      case BackRef(_) => 36
                      case EndOfLine => 20;
            var operand := match x.piece
                           case Char(c) => [c]
                           case Bracket(kind, bits) => Bitmap(bits, if kind.Full? then 32 else 16)
                           case OpenGroup(g) => [g]
                           case CloseGroup(g) => [g]
                           case BackRef(g) => [g]
                           case _ => [];
            ItemBytes(x) == [op + if x.bounds != [] then 3 else if x.starred then 1 else 0] + operand +
                            if x.bounds == [] then [] else [x.bounds[0].0, x.bounds[0].1]
    ensures CCEOF == 22
  {
    if x.bounds != [] {
      assert BoundBytes(x.bounds[..0]) == [];
    }
  }

  /** Byte k of a bitmap holds the members 8 * k to 8 * k + 7, the least in bit 0. */
  lemma BitmapLayout(s: set<byte>, n: nat, k: nat, i: nat)
    requires k < n <= 32 && i < 8
    ensures Bit(Bitmap(s, n)[k], i) <==> 8 * k + i in s
  {
    var c := 8 * k + i;
    assert c / 8 == k && c % 8 == i;
    assert Bitmap(s, n)[0..0 + n] == Bitmap(s, n);
    BitmapIsThere(Bitmap(s, n), 0, s, n, c);
  }

  /** `bytes` stands in prog at ep. */
  ghost predicate Holds(prog: seq<byte>, ep: nat, bytes: seq<byte>) {
    ep + |bytes| <= |prog| && prog[ep..ep + |bytes|] == bytes
  }

  lemma HoldsSplit(prog: seq<byte>, ep: nat, a: seq<byte>, b: seq<byte>)
    ensures Holds(prog, ep, a + b) <==> Holds(prog, ep, a) && Holds(prog, ep + |a|, b)
  {
    if ep + |a| + |b| <= |prog| {
      assert prog[ep..ep + |a + b|] == prog[ep..ep + |a|] + prog[ep + |a|..ep + |a| + |b|];
      assert (a + b)[..|a|] == a && (a + b)[|a|..] == b;
    }
  }

  lemma HoldsFirst(prog: seq<byte>, ep: nat, a: seq<byte>, b: seq<byte>, c: seq<byte>)
    requires Holds(prog, ep, a + b + c)
    ensures Holds(prog, ep, a) && Holds(prog, ep + |a|, b + c)
  {
    assert a + b + c == a + (b + c);
    HoldsSplit(prog, ep, a, b + c);
  }

  /** The class test on a map accepts exactly the bytes of the class, under whichever opcode it has. */
  lemma ClassDecodes(prog: seq<byte>, ep: nat, kind: ClassKind, bits: set<byte>)
    requires Holds(prog, ep, Bitmap(bits, MapSize(kind)))
    ensures AtomAt(prog, BaseOp(Bracket(kind, bits)), ep) == AtomOf(Bracket(kind, bits))
  {
    var a, b := AtomAt(prog, BaseOp(Bracket(kind, bits)), ep).members, AtomOf(Bracket(kind, bits)).members;
    forall x: byte
      ensures x in a <==> x in b
    {
      if x < 128 || kind.Full? {
        BitmapIsThere(prog, ep, bits, MapSize(kind), x);
      }
    }
    assert a == b;
  }

  lemma OpcodeDecodes(x: Item)
    requires SupportedItem(x)
    ensures Opcode(x) != CCEOF
    ensures OneChar(x.piece) ==>
              && AtomOp(Opcode(x)) && Base(Opcode(x)) == BaseOp(x.piece)
              && Opcode(x) == BaseOp(x.piece) + if x.bounds != [] then RNGE else if x.starred then STAR else 0
    ensures !OneChar(x.piece) ==>
              && !AtomOp(Opcode(x))
              && Opcode(x) == if x.starred then CBACK + STAR else BaseOp(x.piece)
  {
  }

  lemma OperandsDecode(prog: seq<byte>, at: nat, x: Piece)
    requires OneChar(x) && Holds(prog, at, Operands(x))
    ensures |Operands(x)| == OperandWidth(BaseOp(x)) && AtomAt(prog, BaseOp(x), at) == AtomOf(x)
  {
    match x
    case Char(c) => assert prog[at] == prog[at..at + 1][0];
    case Dot =>
    case Bracket(kind, bits) => ClassDecodes(prog, at, kind, bits);
  }

  /** The code of a supported item decodes to its element and to nothing more. */
  lemma ItemDecodes(prog: seq<byte>, ep: nat, x: Item)
    requires SupportedItem(x) && Holds(prog, ep, ItemBytes(x))
    ensures prog[ep] != CCEOF && Width(prog[ep]) == |ItemBytes(x)|
    ensures ElemAt(prog, ep) == Some(ElemOf(x))
  {
    var op, args, tail := [Opcode(x)], Operands(x.piece), BoundBytes(x.bounds);
    HoldsSplit(prog, ep, op + args, tail);
    HoldsSplit(prog, ep, op, args);
    assert prog[ep] == prog[ep..ep + 1][0];
    OpcodeDecodes(x);
    if OneChar(x.piece) {
      OperandsDecode(prog, ep + 1, x.piece);
      if x.bounds != [] {
        assert BoundBytes(x.bounds[..0]) == [];
        assert tail == [x.bounds[0].0, x.bounds[0].1];
        var at := ep + 1 + |args|;
        assert prog[at] == prog[at..at + 2][0] && prog[at + 1] == prog[at..at + 2][1];
      }
    } else if |args| == 1 {
      assert prog[ep + 1] == prog[ep + 1..ep + 2][0];
    }
  }

  lemma EncodeSplit(prog: seq<byte>, ep: nat, items: seq<Item>, tail: seq<byte>)
    requires items != [] && Holds(prog, ep, Encode(items) + tail)
    ensures var x := ItemBytes(items[0]);
            Holds(prog, ep, x) && Holds(prog, ep + |x|, Encode(items[1..]) + tail)
  {
    hide ItemBytes, Holds;
    HoldsFirst(prog, ep, ItemBytes(items[0]), Encode(items[1..]), tail);
  }

  /** Decoding the code of a supported pattern gives exactly the elements of the reference parser. */
  lemma {:induction false} DecodeEncode(prog: seq<byte>, ep: nat, items: seq<Item>)
    requires Supported(items) && Holds(prog, ep, Encode(items) + [CCEOF])
    ensures Decode(prog, ep) == Some(Elems(items))
    decreases |items|
  {
    if items == [] {
      assert prog[ep] == prog[ep..ep + 1][0];
    } else {
      EncodeSplit(prog, ep, items, [CCEOF]);
      ItemDecodes(prog, ep, items[0]);
      DecodeEncode(prog, ep + |ItemBytes(items[0])|, items[1..]);
    }
  }
}
