/** The byte code that `compile` emits and `advance` reads, and its decoding into elements. */
module Program {
  import opened Bytes

  const CBRA: byte := 2
  const CCHR: byte := 4
  const CDOT: byte := 8
  const CCL: byte := 12
  const CXCL: byte := 16
  const CDOL: byte := 20
  const CCEOF: byte := 22
  const CKET: byte := 24
  const CBACK: byte := 36
  const NCCL: byte := 40

  const STAR: byte := 1
  const RNGE: byte := 3

  const NBRA := 9
  const OPEN_ENDED: byte := 255
  const OPEN_SPAN := 20000

  datatype Option<+T> = None | Some(value: T)

  type Group = g: int | 0 <= g < NBRA

  /** What one subject byte is tested against. */
  datatype Atom = Literal(c: byte) | Any | Class(members: set<byte>)
  {
    predicate Accepts(x: byte) {
      match this
      case Literal(c) => x == c
      case Any => x != 0
      case Class(members) => x in members
    }
  }

  /** How far a repetition may go beyond its minimum. */
  datatype Limit = Unlimited | AtMost(n: nat)
  {
    predicate Allows(k: nat) { Unlimited? || k <= n }

    function Cap(k: nat): (r: nat)
      ensures r <= k && Allows(r)
      ensures forall j: nat :: j <= k && Allows(j) ==> j <= r
    {
      if Allows(k) then k else n
    }
  }

  datatype Elem =
    | One(a: Atom)
    | Many(a: Atom, lo: nat, more: Limit)
    | Open(g: Group)
    | Close(g: Group)
    | Back(g: Group)
    | BackMany(g: Group)
    | Eol
    | Nop  // an opcode without an arm in `advance` is stepped over

  predicate AtomBase(base: byte) {
    base == CCHR || base == CDOT || base == CCL || base == CXCL || base == NCCL
  }

  /** The opcode of a one-character element without its STAR and RNGE bits; 0 for other opcodes. */
  function Base(op: byte): (base: byte) {
    if CCHR <= op <= CCHR + RNGE then CCHR
    else if CDOT <= op <= CDOT + RNGE then CDOT
    else if CCL <= op <= CCL + RNGE then CCL
    else if CXCL <= op <= CXCL + RNGE then CXCL
    else if NCCL <= op <= NCCL + RNGE then NCCL
    else 0
  }

  /** An opcode for a one-character element: plain, starred or with an interval. */
  predicate AtomOp(op: byte) {
    AtomBase(Base(op)) && (op == Base(op) || op == Base(op) + STAR || op == Base(op) + RNGE)
  }

  function OperandWidth(base: byte): nat
    requires AtomBase(base)
  {
    if base == CCHR then 1
    else if base == CDOT then 0
    else if base == CXCL then 32
    else 16
  }

  /** The number of bytes of the element whose opcode is `op`. */
  function Width(op: byte): (w: nat)
    ensures w > 0
  {
    if AtomOp(op) then 1 + OperandWidth(Base(op)) + (if op == Base(op) + RNGE then 2 else 0)
    else if op == CBRA || op == CKET || op == CBACK || op == CBACK + STAR then 2
    else 1
  }

  /** How many bytes beyond lo an interval with bounds lo and hi may take. */
  function Span(lo: byte, hi: byte): int {
    if hi == OPEN_ENDED then OPEN_SPAN else hi - lo
  }

  ghost function AtomAt(prog: seq<byte>, base: byte, at: nat): Atom
    requires AtomBase(base) && at + OperandWidth(base) <= |prog|
  {
    if base == CCHR then Literal(prog[at])
    else if base == CDOT then Any
    else if base == CCL then Class(set x: byte | x < 128 && IsThere(prog, at, x))
    else if base == NCCL then Class(set x: byte | !(x < 128 && IsThere(prog, at, x)))
    else Class(set x: byte | IsThere(prog, at, x))
  }

  /** The element at `ep`, if its operands make sense: group numbers in range, intervals not inverted. */
  ghost function ElemAt(prog: seq<byte>, ep: nat): Option<Elem>
    requires ep < |prog| && ep + Width(prog[ep]) <= |prog|
  {
    var op := prog[ep];
    if AtomOp(op) then
      var a := AtomAt(prog, Base(op), ep + 1);
      if op == Base(op) then Some(One(a))
      else if op == Base(op) + STAR then Some(Many(a, 0, Unlimited))
      else
        var at := ep + Width(op) - 2;
        var lo, hi := prog[at], prog[at + 1];
        if Span(lo, hi) < 0 then None else Some(Many(a, lo, AtMost(Span(lo, hi))))
    else if Width(op) == 2 then
      if prog[ep + 1] >= NBRA then None
      else if op == CBRA then Some(Open(prog[ep + 1]))
      else if op == CKET then Some(Close(prog[ep + 1]))
      else if op == CBACK then Some(Back(prog[ep + 1]))
      else Some(BackMany(prog[ep + 1]))
    else if op == CDOL then Some(Eol)
    else Some(Nop)
  }

  /** The elements from `ep` up to the first CCEOF. */
  ghost function Decode(prog: seq<byte>, ep: nat): Option<seq<Elem>>
    decreases |prog| - ep
  {
    if ep >= |prog| then None
    else if prog[ep] == CCEOF then Some([])
    else if ep + Width(prog[ep]) > |prog| || ElemAt(prog, ep).None? then None
    else
      var rest := Decode(prog, ep + Width(prog[ep]));
      if rest.None? then None else Some([ElemAt(prog, ep).value] + rest.value)
  }

  lemma DecodeHead(prog: seq<byte>, ep: nat)
    requires Decode(prog, ep).Some?
    requires prog[ep] != CCEOF
    ensures ep + Width(prog[ep]) < |prog|
    ensures Decode(prog, ep).value != []
    ensures ElemAt(prog, ep) == Some(Decode(prog, ep).value[0])
    ensures Decode(prog, ep + Width(prog[ep])) == Some(Decode(prog, ep).value[1..])
  {
  }

  lemma OpRepeats(prog: seq<byte>, ep: nat)
    requires Decode(prog, ep).Some? && prog[ep] != CCEOF
    ensures var e, op := Decode(prog, ep).value[0], prog[ep];
            e.Many? || e.BackMany? <==> op == CBACK + STAR || (AtomOp(op) && op != Base(op))
  {
    DecodeHead(prog, ep);
  }
}
