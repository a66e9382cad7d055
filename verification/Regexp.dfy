/** The state of regexp.h and the operations that change it. */
module Regexp {
  import opened Bytes
  import opened Program
  import opened Meaning
  import opened Backtracking
  import opened Captures
  import opened Subject
  import opened Leftmost
  import opened Pattern
  import opened Space
  import opened Emitter

  /** How `compile` comes back: an error code, or the end of the code and the pattern cursor. */
  datatype Compiled = Failed(code: int) | Returned(ep: nat, sp: nat)

  /** The globals of regexp.h. Pointers into the subject are positions; -1 stands for NULL. */
  class Regexp {
    const braslist: array<int>
    const braelist: array<int>
    var sed: bool
    var nbra: nat
    var loc1: int
    var loc2: int
    var locs: int
    var nodelim: bool
    var circf: bool
    var low: int
    var size: int

    ghost predicate Valid() {
      braslist.Length == NBRA && braelist.Length == NBRA && braslist != braelist
    }

    /** Static storage starts out as zeros and null pointers. */
    constructor ()
      ensures Valid() && fresh(braslist) && fresh(braelist)
      ensures Marks() == Env(seq(NBRA, _ => -1), seq(NBRA, _ => -1))
      ensures !sed && !nodelim && !circf && nbra == 0 && low == 0 && size == 0
      ensures loc1 == -1 && loc2 == -1 && locs == -1
    {
      braslist := new int[NBRA](_ => -1);
      braelist := new int[NBRA](_ => -1);
      sed, nodelim, circf := false, false, false;
      nbra, low, size := 0, 0, 0;
      loc1, loc2, locs := -1, -1, -1;
    }

    ghost function Marks(): Env
      requires Valid()
      reads braslist, braelist
    {
      Env(braslist[..], braelist[..])
    }

    /** The search that `advance` is to carry out from lp and ep. */
    ghost function Sought(s: seq<byte>, lp: nat, prog: seq<byte>, ep: nat): Outcome
      requires Valid() && CString(s) && lp < |s| && Decode(prog, ep).Some?
      reads this, braslist, braelist
    {
      Search(Decode(prog, ep).value, Text(s), lp, Marks(), locs)
    }

    /** The marks that `advance` is to leave behind if it fails. */
    ghost function LeftBy(s: seq<byte>, lp: nat, prog: seq<byte>, ep: nat): Env
      requires Valid() && CString(s) && lp < |s| && Decode(prog, ep).Some?
      reads this, braslist, braelist
    {
      Leaves(Decode(prog, ep).value, Text(s), lp, Marks(), locs)
    }

    /** `advance` may start from lp and ep after a prefix that opened and closed the given groups. */
    ghost predicate Ready(s: seq<byte>, lp: int, prog: seq<byte>, ep: nat, begun: set<Group>, ended: set<Group>)
      reads this, braslist, braelist
    {
      && Valid() && CString(s) && 0 <= lp < |s|
      && Decode(prog, ep).Some?
      && WellFormed(Decode(prog, ep).value, begun, ended)
      && SpansOk(Marks(), begun, ended, lp)
    }

    /**
     The state agrees with the outcome r of a search for es: the verdict is that of the search; on success
     loc2 and the captures are those of the accepted run; on failure loc2 is as before and the captures are
     those in `left`. Every capture that es does not write is as before either way.
     */
    twostate predicate Settled(ok: bool, es: seq<Elem>, r: Outcome, left: Env)
      requires Valid()
      reads this, braslist, braelist
    {
      && (ok ==> r.Hit? && loc2 == r.end && Marks() == r.env)
      && (!ok ==> r.Miss? && loc2 == old(loc2) && Marks() == left)
      && SameExceptWrites(old(Marks()), Marks(), es)
    }

    /** `getrnge` */
    method GetRange(prog: seq<byte>, str: nat)
      requires str + 1 < |prog|
      modifies this`low, this`size
      ensures low == prog[str]
      ensures size == Span(prog[str], prog[str + 1])
      ensures if prog[str + 1] == 255 then size == 20000 else size == prog[str + 1] - low
    {
      low := prog[str];
      size := if prog[str + 1] == OPEN_ENDED then OPEN_SPAN else prog[str + 1] - low;
    }

    /** The scan of a starred one-character element: lp is left one past the first byte that stops it. */
    method ScanStar(base: byte, s: seq<byte>, lp0: nat, prog: seq<byte>, ep: nat) returns (lp: nat)
      requires CString(s) && lp0 < |s|
      requires AtomBase(base) && ep + OperandWidth(base) <= |prog|
      requires !AtomAt(prog, base, ep).Accepts(0)
      ensures lp == lp0 + RunLength(AtomAt(prog, base, ep), Text(s), lp0) + 1
      ensures lp <= |s|
    {
      ghost var a := AtomAt(prog, base, ep);
      lp := lp0;
      while true
        invariant lp0 <= lp < |s|
        invariant lp + RunLength(a, Text(s), lp) == lp0 + RunLength(a, Text(s), lp0)
        decreases |s| - lp
      {
        var c := s[lp];
        TestsAgree(base, prog, ep, c);
        TestIsStretch(a, s, lp);
        lp := lp + 1;
        if !StarTest(base, prog, ep, c) {
          break;
        }
      }
    }

    /**
     The scan of a one-character element with an interval. On success curlp is after the mandatory bytes
     and lp one past the farthest hand-over, whether the scan stopped at a byte or ran out of `size`.
     */
    method ScanRange(base: byte, s: seq<byte>, lp0: nat, prog: seq<byte>, ep: nat)
      returns (ok: bool, curlp: nat, lp: nat)
      requires CString(s) && lp0 < |s|
      requires AtomBase(base) && ep + OperandWidth(base) + 2 <= |prog|
      requires !AtomAt(prog, base, ep).Accepts(0)
      requires var str := ep + OperandWidth(base); Span(prog[str], prog[str + 1]) >= 0
      modifies this`low, this`size
      ensures var a, str := AtomAt(prog, base, ep), ep + OperandWidth(base);
              var run := RunLength(a, Text(s), lp0);
              && (ok <==> prog[str] <= run)
              && (ok ==> curlp == lp0 + prog[str]
                         && lp == curlp + 1 + AtMost(Span(prog[str], prog[str + 1])).Cap(run - prog[str]))
    {
      ghost var a, str, t := AtomAt(prog, base, ep), ep + OperandWidth(base), Text(s);
      GetRange(prog, ep + OperandWidth(base));
      ok, curlp, lp := true, lp0, lp0;
      while low != 0
        invariant 0 <= low <= prog[str] && lp == lp0 + (prog[str] - low) && lp < |s|
        invariant size == Span(prog[str], prog[str + 1])
        invariant lp + RunLength(a, t, lp) == lp0 + RunLength(a, t, lp0)
        decreases low
      {
        low := low - 1;
        var c := s[lp];
        TestsAgree(base, prog, ep, c);
        TestIsStretch(a, s, lp);
        lp := lp + 1;
        if RangeStop(base, prog, ep, c) {
          ok := false;
          return;
        }
      }
      low := low - 1;
      curlp := lp;
      ghost var span := size;
      while true
        invariant 0 <= size <= span && lp == curlp + (span - size) && lp < |s|
        invariant lp + RunLength(a, t, lp) == curlp + RunLength(a, t, curlp)
        decreases size
      {
        size := size - 1;
        if size < 0 {
          break;
        }
        var c := s[lp];
        TestsAgree(base, prog, ep, c);
        TestIsStretch(a, s, lp);
        lp := lp + 1;
        if RangeStop(base, prog, ep, c) {
          break;
        }
      }
      if size < 0 {
        lp := lp + 1;
      }
    }

    /** The tail shared by all repeated one-character elements: hand over at lp - 1, lp - 2, ..., curlp. */
    method StarTail(s: seq<byte>, lp0: nat, curlp: nat, prog: seq<byte>, ep: nat,
                    ghost begun: set<Group>, ghost ended: set<Group>)
      returns (ok: bool)
      requires curlp < lp0 <= |s| && Ready(s, curlp, prog, ep, begun, ended)
      requires !TryDown(Decode(prog, ep).value, Text(s), curlp, 1, lp0 - 1 - curlp, Marks(), locs, locs).Hang?
      modifies this`loc2, this`low, this`size, braslist, braelist
      ensures Settled(ok, Decode(prog, ep).value,
                      TryDown(Decode(prog, ep).value, Text(s), curlp, 1, lp0 - 1 - curlp, old(Marks()), locs, locs),
                      TryLeaves(Decode(prog, ep).value, Text(s), curlp, 1, lp0 - 1 - curlp, old(Marks()), locs, locs))
      decreases |prog| - ep, 2
    {
      ghost var es, t := Decode(prog, ep).value, Text(s);
      var lp := lp0;
      while true
        invariant curlp < lp <= lp0
        invariant Ready(s, curlp, prog, ep, begun, ended)
        invariant SameExceptWrites(old(Marks()), Marks(), es) && loc2 == old(loc2)
        invariant TryDown(es, t, curlp, 1, lp0 - 1 - curlp, old(Marks()), locs, locs)
               == TryDown(es, t, curlp, 1, lp - 1 - curlp, Marks(), locs, locs)
        invariant TryLeaves(es, t, curlp, 1, lp0 - 1 - curlp, old(Marks()), locs, locs)
               == TryLeaves(es, t, curlp, 1, lp - 1 - curlp, Marks(), locs, locs)
        decreases lp
      {
        lp := lp - 1;
        if lp == locs {
          return false;
        }
        ghost var before := Marks();
        ok := Advance(s, lp, prog, ep, begun, ended);
        if ok {
          return;
        }
        if lp <= curlp {
          return false;
        }
        WritesAreNew(es, begun, ended);
        LeftoversOfTries(es, begun, ended, t, curlp, 1, lp - 1 - curlp, before, Marks(), locs, locs);
      }
    }

    /** Step over as many copies of the capture at bbeg as there are. */
    method ScanCopies(s: seq<byte>, bbeg: nat, ct: nat, lp0: nat, ghost w: seq<byte>) returns (lp: nat)
      requires CString(s) && 0 < ct == |w| && bbeg + ct < |s| && lp0 < |s| && w == Text(s)[bbeg..bbeg + ct]
      ensures lp == At(lp0, ct, CopyCount(w, Text(s), lp0))
      ensures lp < |s|
    {
      hide CopyCount;
      ghost var k, t := 0, Text(s);
      lp := lp0;
      var more := AnotherCopy(s, bbeg, ct, lp, w);
      while more
        invariant lp + (if more then ct else 0) < |s| && lp == At(lp0, ct, k)
        invariant CopyCount(w, t, lp0) == if more then k + 1 + CopyCount(w, t, lp + ct) else k
        decreases |s| - lp, more
      {
        lp, k := lp + ct, k + 1;
        more := AnotherCopy(s, bbeg, ct, lp, w);
      }
    }

    /** Hand over at lp0, then ct bytes earlier each time, down to curlp. */
    method CopyTail(s: seq<byte>, lp0: nat, curlp: nat, ct: nat, ghost top: nat, prog: seq<byte>, ep: nat,
                    ghost begun: set<Group>, ghost ended: set<Group>)
      returns (ok: bool)
      requires Ready(s, curlp, prog, ep, begun, ended)
      requires ct > 0 && lp0 < |s| && lp0 == At(curlp, ct, top)
      requires !TryDown(Decode(prog, ep).value, Text(s), curlp, ct, top, Marks(), -1, locs).Hang?
      modifies this`loc2, this`low, this`size, braslist, braelist
      ensures Settled(ok, Decode(prog, ep).value,
                      TryDown(Decode(prog, ep).value, Text(s), curlp, ct, top, old(Marks()), -1, locs),
                      TryLeaves(Decode(prog, ep).value, Text(s), curlp, ct, top, old(Marks()), -1, locs))
      decreases |prog| - ep, 2
    {
      ghost var es, t, k := Decode(prog, ep).value, Text(s), top;
      var lp: int := lp0;
      AtMonotone(curlp, ct, 0, top);
      while true
        invariant curlp <= lp < |s| && lp == At(curlp, ct, k)
        invariant Ready(s, curlp, prog, ep, begun, ended)
        invariant SameExceptWrites(old(Marks()), Marks(), es) && loc2 == old(loc2)
        invariant TryDown(es, t, curlp, ct, top, old(Marks()), -1, locs)
               == TryDown(es, t, curlp, ct, k, Marks(), -1, locs)
        invariant TryLeaves(es, t, curlp, ct, top, old(Marks()), -1, locs)
               == TryLeaves(es, t, curlp, ct, k, Marks(), -1, locs)
        decreases lp
      {
        ghost var before := Marks();
        ok := Advance(s, lp, prog, ep, begun, ended);
        if ok {
          return;
        }
        lp := lp - ct;
        if k > 0 {
          AtMonotone(curlp, ct, 0, k - 1);
        }
        if lp < curlp {
          return false;
        }
        WritesAreNew(es, begun, ended);
        k := k - 1;
        LeftoversOfTries(es, begun, ended, t, curlp, ct, k, before, Marks(), -1, locs);
      }
    }

    /** The arms of the elements that do not repeat. */
    method MatchFixed(s: seq<byte>, lp0: nat, prog: seq<byte>, ep: nat,
                      ghost begun: set<Group>, ghost ended: set<Group>)
      returns (ok: bool, lp: nat)
      requires Ready(s, lp0, prog, ep, begun, ended)
      requires prog[ep] != CCEOF && !Repeats(Decode(prog, ep).value[0])
      modifies braslist, braelist
      ensures var l := Consume(Decode(prog, ep).value[0], 0, Text(s), lp0, old(Marks()), locs);
              && (ok <==> l.Some?)
              && (ok ==> l.value == Landing(lp, Marks()))
              && (!ok ==> Marks() == old(Marks()))
    {
      DecodeHead(prog, ep);
      var op := prog[ep];
      ok, lp := true, lp0;
      if AtomOp(op) {
        TestIsStretch(AtomAt(prog, op, ep + 1), s, lp);
        TestsAgree(op, prog, ep + 1, s[lp]);
        ok := PlainTest(op, prog, ep + 1, s[lp]);
        lp := lp + 1;
      } else if op == CBRA {
        braslist[prog[ep + 1]] := lp;
        assert braslist[..] == old(braslist[..])[prog[ep + 1] := lp];
      } else if op == CKET {
        braelist[prog[ep + 1]] := lp;
        assert braelist[..] == old(braelist[..])[prog[ep + 1] := lp];
      } else if op == CBACK {
        var bbeg := braslist[prog[ep + 1]];
        var ct := braelist[prog[ep + 1]] - bbeg;
        EcmpIsPrefix(s, bbeg, lp, ct);
        ok := Ecmp(s, bbeg, lp, ct);
        lp := lp + ct;
      } else if op == CDOL {
        ok := s[lp] == 0;
      }
    }

    /** An element that does not repeat: fail, or go on with the next element from where this one landed. */
    method FixedArm(s: seq<byte>, lp0: nat, prog: seq<byte>, ep0: nat, ghost begun: set<Group>, ghost ended: set<Group>)
      returns (ok: bool, lp: nat, ep: nat, ghost begun': set<Group>, ghost ended': set<Group>)
      requires Ready(s, lp0, prog, ep0, begun, ended)
      requires prog[ep0] != CCEOF && !Repeats(Decode(prog, ep0).value[0])
      modifies braslist, braelist
      ensures ep > ep0 && SameExceptWrites(old(Marks()), Marks(), Decode(prog, ep0).value)
      ensures !ok ==> old(Sought(s, lp0, prog, ep0)).Miss? && Marks() == old(LeftBy(s, lp0, prog, ep0))
      ensures ok ==> Ready(s, lp, prog, ep, begun', ended')
                     && old(Sought(s, lp0, prog, ep0)) == Sought(s, lp, prog, ep)
                     && old(LeftBy(s, lp0, prog, ep0)) == LeftBy(s, lp, prog, ep)
                     && WritesWithin(Decode(prog, ep).value, Decode(prog, ep0).value)
    {
      ghost var es, was := Decode(prog, ep0).value, Marks();
      DecodeHead(prog, ep0);
      WritesStep(es);
      ok, lp := MatchFixed(s, lp0, prog, ep0, begun, ended);
      ep := ep0 + Width(prog[ep0]);
      begun', ended' := BegunAfter(es[0], begun), EndedAfter(es[0], ended);
      if ok {
        FixedStep(es, Text(s), lp0, was, locs, begun, ended);
      }
    }

    /** A starred one-character element. */
    method StarArm(s: seq<byte>, lp: nat, prog: seq<byte>, ep: nat, ghost begun: set<Group>, ghost ended: set<Group>)
      returns (ok: bool)
      requires Ready(s, lp, prog, ep, begun, ended)
      requires AtomOp(prog[ep]) && prog[ep] == Base(prog[ep]) + STAR
      requires !Sought(s, lp, prog, ep).Hang?
      modifies this`loc2, this`low, this`size, braslist, braelist
      ensures Settled(ok, Decode(prog, ep).value, old(Sought(s, lp, prog, ep)), old(LeftBy(s, lp, prog, ep)))
      decreases |prog| - ep, 0
    {
      hide SameExceptWrites, WritesWithin;
      ghost var es, t, was := Decode(prog, ep).value, Text(s), Marks();
      ghost var r, rest := Sought(s, lp, prog, ep), es[1..];
      DecodeHead(prog, ep);
      WritesStep(es);
      var op := prog[ep];
      var end := ScanStar(op - STAR, s, lp, prog, ep + 1);
      assert r == TryDown(rest, t, lp, 1, end - 1 - lp, was, locs, locs);
      assert LeftBy(s, lp, prog, ep) == TryLeaves(rest, t, lp, 1, end - 1 - lp, was, locs, locs);
      ok := StarTail(s, end, lp, prog, ep + Width(op), begun, ended);
      WidenWrites(was, Marks(), rest, es);
    }

    /** A one-character element with an interval. */
    method RangeArm(s: seq<byte>, lp: nat, prog: seq<byte>, ep: nat, ghost begun: set<Group>, ghost ended: set<Group>)
      returns (ok: bool)
      requires Ready(s, lp, prog, ep, begun, ended)
      requires AtomOp(prog[ep]) && prog[ep] == Base(prog[ep]) + RNGE
      requires !Sought(s, lp, prog, ep).Hang?
      modifies this`loc2, this`low, this`size, braslist, braelist
      ensures Settled(ok, Decode(prog, ep).value, old(Sought(s, lp, prog, ep)), old(LeftBy(s, lp, prog, ep)))
      decreases |prog| - ep, 0
    {
      hide WritesWithin;
      ghost var es, t, was := Decode(prog, ep).value, Text(s), Marks();
      ghost var r, rest := Sought(s, lp, prog, ep), es[1..];
      DecodeHead(prog, ep);
      WritesStep(es);
      var op := prog[ep];
      var fits, curlp, end := ScanRange(op - RNGE, s, lp, prog, ep + 1);
      if !fits {
        return false;
      }
      assert r == TryDown(rest, t, curlp, 1, end - 1 - curlp, was, locs, locs);
      assert old(LeftBy(s, lp, prog, ep)) == TryLeaves(rest, t, curlp, 1, end - 1 - curlp, was, locs, locs);
      ok := StarTail(s, end, curlp, prog, ep + Width(op), begun, ended);
      WidenWrites(was, Marks(), rest, es);
    }

    /** A starred back-reference. */
    method BackStarArm(s: seq<byte>, lp: nat, prog: seq<byte>, ep: nat,
                       ghost begun: set<Group>, ghost ended: set<Group>)
      returns (ok: bool)
      requires Ready(s, lp, prog, ep, begun, ended)
      requires prog[ep] == CBACK + STAR
      requires !Sought(s, lp, prog, ep).Hang?
      modifies this`loc2, this`low, this`size, braslist, braelist
      ensures Settled(ok, Decode(prog, ep).value, old(Sought(s, lp, prog, ep)), old(LeftBy(s, lp, prog, ep)))
      decreases |prog| - ep, 0
    {
      hide SameExceptWrites, WritesWithin;
      ghost var es, t, was := Decode(prog, ep).value, Text(s), Marks();
      ghost var r, rest := Sought(s, lp, prog, ep), es[1..];
      DecodeHead(prog, ep);
      WritesStep(es);
      var op := prog[ep];
      var bbeg := braslist[prog[ep + 1]];
      var ct := braelist[prog[ep + 1]] - bbeg;
      ghost var w := t[bbeg..bbeg + ct];
      ghost var top := CopyCount(w, t, lp);
      var end := ScanCopies(s, bbeg, ct, lp, w);
      assert PlanFor(es[0], t, lp, was, locs) == Descend(lp, ct, top, -1) by {
        assert Captured(t, was, prog[ep + 1]) == w;
      }
      assert r == TryDown(rest, t, lp, ct, top, was, -1, locs);
      assert LeftBy(s, lp, prog, ep) == TryLeaves(rest, t, lp, ct, top, was, -1, locs);
      ok := CopyTail(s, end, lp, ct, top, prog, ep + Width(op), begun, ended);
      WidenWrites(was, Marks(), rest, es);
    }

    /** `advance`: match the program at ep0 against the subject at lp0. */
    method Advance(s: seq<byte>, lp0: nat, prog: seq<byte>, ep0: nat,
                   ghost begun: set<Group>, ghost ended: set<Group>)
      returns (ok: bool)
      requires Ready(s, lp0, prog, ep0, begun, ended)
      requires !Sought(s, lp0, prog, ep0).Hang?
      modifies this`loc2, this`low, this`size, braslist, braelist
      ensures Settled(ok, Decode(prog, ep0).value, old(Sought(s, lp0, prog, ep0)), old(LeftBy(s, lp0, prog, ep0)))
      decreases |prog| - ep0, 1
    {
      ghost var es0, b, e := Decode(prog, ep0).value, begun, ended;
      var lp, ep := lp0, ep0;
      while true
        invariant ep0 <= ep && Ready(s, lp, prog, ep, b, e)
        invariant old(Sought(s, lp0, prog, ep0)) == Sought(s, lp, prog, ep)
        invariant old(LeftBy(s, lp0, prog, ep0)) == LeftBy(s, lp, prog, ep)
        invariant SameExceptWrites(old(Marks()), Marks(), es0) && loc2 == old(loc2)
        invariant WritesWithin(Decode(prog, ep).value, es0)
        decreases |prog| - ep
      {
        var op := prog[ep];
        if op == CCEOF {
          loc2 := lp;
          return true;
        }
        ghost var es, was := Decode(prog, ep).value, Marks();
        OpRepeats(prog, ep);
        if op == CBACK + STAR {
          ok := BackStarArm(s, lp, prog, ep, b, e);
        } else if AtomOp(op) && op == Base(op) + STAR {
          ok := StarArm(s, lp, prog, ep, b, e);
        } else if AtomOp(op) && op == Base(op) + RNGE {
          ok := RangeArm(s, lp, prog, ep, b, e);
        } else {
          ok, lp, ep, b, e := FixedArm(s, lp, prog, ep, b, e);
          JoinWrites(old(Marks()), was, Marks(), es, es0);
          if ok {
            continue;
          }
          return;
        }
        JoinWrites(old(Marks()), was, Marks(), es, es0);
        return;
      }
    }

    /** The state agrees with the outcome of a scan for es, and on failure with the captures in `left`. */
    twostate predicate Located(ok: bool, es: seq<Elem>, f: Found, left: Env)
      requires Valid()
      reads this, braslist, braelist
    {
      && (ok ==> f.Found? && loc1 == f.start && loc2 == f.end && Marks() == f.env)
      && (!ok ==> f.NotFound? && loc2 == old(loc2) && Marks() == left)
      && SameExceptWrites(old(Marks()), Marks(), es)
    }

    /** The scan of `step` that looks at the first character of a literal before it calls `advance`. */
    method FastScan(s: seq<byte>, p10: nat, prog: seq<byte>, p2: nat) returns (ok: bool)
      requires Ready(s, p10, prog, p2, {}, {}) && prog[p2] == CCHR
      requires !FirstMatch(Decode(prog, p2).value, Text(s), p10, Marks(), locs).NoReturn?
      modifies this`loc1, this`loc2, this`low, this`size, braslist, braelist
      ensures Located(ok, Decode(prog, p2).value, FirstMatch(Decode(prog, p2).value, Text(s), p10, old(Marks()), locs),
                      ScanLeaves(Decode(prog, p2).value, Text(s), p10, old(Marks()), locs))
      ensures !ok ==> loc1 == old(loc1)
    {
      ghost var es, t := Decode(prog, p2).value, Text(s);
      var p1 := p10;
      var c := prog[p2 + 1];
      LiteralFirst(prog, p2);
      while true
        invariant p10 <= p1 < |s| && Ready(s, p1, prog, p2, {}, {})
        invariant SameExceptWrites(old(Marks()), Marks(), es) && loc1 == old(loc1) && loc2 == old(loc2)
        invariant FirstMatch(es, t, p10, old(Marks()), locs) == FirstMatch(es, t, p1, Marks(), locs)
        invariant ScanLeaves(es, t, p10, old(Marks()), locs) == ScanLeaves(es, t, p1, Marks(), locs)
        decreases |s| - p1
      {
        ghost var was := Marks();
        if s[p1] == c {
          ok := Advance(s, p1, prog, p2, {}, {});
          if ok {
            loc1 := p1;
            return;
          }
        }
        if s[p1] == 0 {
          return false;
        }
        p1 := p1 + 1;
        ScanLeftovers(es, t, p1, was, Marks(), locs);
      }
    }

    /** The regular scan of `step`. */
    method RegularScan(s: seq<byte>, p10: nat, prog: seq<byte>, p2: nat) returns (ok: bool)
      requires Ready(s, p10, prog, p2, {}, {})
      requires !FirstMatch(Decode(prog, p2).value, Text(s), p10, Marks(), locs).NoReturn?
      modifies this`loc1, this`loc2, this`low, this`size, braslist, braelist
      ensures Located(ok, Decode(prog, p2).value, FirstMatch(Decode(prog, p2).value, Text(s), p10, old(Marks()), locs),
                      ScanLeaves(Decode(prog, p2).value, Text(s), p10, old(Marks()), locs))
      ensures !ok ==> loc1 == old(loc1)
    {
      ghost var es, t := Decode(prog, p2).value, Text(s);
      var p1 := p10;
      while true
        invariant p10 <= p1 < |s| && Ready(s, p1, prog, p2, {}, {})
        invariant SameExceptWrites(old(Marks()), Marks(), es) && loc1 == old(loc1) && loc2 == old(loc2)
        invariant FirstMatch(es, t, p10, old(Marks()), locs) == FirstMatch(es, t, p1, Marks(), locs)
        invariant ScanLeaves(es, t, p10, old(Marks()), locs) == ScanLeaves(es, t, p1, Marks(), locs)
        decreases |s| - p1
      {
        ghost var was := Marks();
        ok := Advance(s, p1, prog, p2, {}, {});
        if ok {
          loc1 := p1;
          return;
        }
        if s[p1] == 0 {
          return false;
        }
        p1 := p1 + 1;
        ScanLeftovers(es, t, p1, was, Marks(), locs);
      }
    }

    /** `step`: find the program at p2 in the subject from p1 on. */
    method Step(s: seq<byte>, p1: nat, prog: seq<byte>, p2: nat) returns (ok: bool)
      requires Ready(s, p1, prog, p2, {}, {})
      requires !StepOutcome(circf, Decode(prog, p2).value, Text(s), p1, Marks(), locs).NoReturn?
      modifies this`loc1, this`loc2, this`low, this`size, braslist, braelist
      ensures Located(ok, Decode(prog, p2).value,
                      StepOutcome(circf, Decode(prog, p2).value, Text(s), p1, old(Marks()), locs),
                      StepLeaves(circf, Decode(prog, p2).value, Text(s), p1, old(Marks()), locs))
      ensures !ok ==> loc1 == if circf then p1 else old(loc1)
    {
      if circf {
        loc1 := p1;
        ok := Advance(s, p1, prog, p2, {}, {});
      } else if prog[p2] == CCHR {
        ok := FastScan(s, p1, prog, p2);
      } else {
        ok := RegularScan(s, p1, prog, p2);
      }
    }

    /** What `compile` returns, and the code it leaves, agree with the reference parser. */
    ghost predicate Agrees(r: Compiled, want: Parsed, buf: array<byte>, ep0: nat)
      reads this, buf
    {
      match want
      case Reject(code) => r == Failed(code)
      case Accept(items, n, next, _) =>
        && r.Returned? && r.sp == next && nbra == n
        && ep0 < r.ep <= buf.Length && buf[ep0..r.ep] == Encode(items) + [CCEOF]
    }

    /** The end of the pattern: the delimiter, or a newline that is put back. */
    method Finish(src: Input, sp: nat, buf: array<byte>, ghost ep0: nat, ep: nat, ghost lastep: int, bracketp: nat,
                  ghost want: Parsed, ghost done: seq<Item>, ghost cur: Option<Item>, ghost g: Groups)
      returns (r: Compiled)
      requires CodeAt(buf, ep0, ep, lastep, done, cur) && want == Continued(src, sp, ep - ep0, done, cur, g)
      requires sp < |src.p| && (src.p[sp] == src.eof || src.p[sp] == NEWLINE)
      requires ep < buf.Length && ep - ep0 < src.room && bracketp == |g.stack| && nbra == g.nbra
      modifies this`nodelim, buf
      ensures Untouched(buf, ep, ep + 1)
      ensures Agrees(r, want, buf, ep0)
      ensures want.Accept? ==> nodelim == (old(nodelim) || want.newline)
    {
      ghost var before := buf[ep0..ep];
      TrackRest(want, src, sp, ep - ep0, done, cur, g);
      CodeSoFar(buf, ep0, ep, lastep, done, cur);
      if src.p[sp] == src.eof {
        buf[ep] := CCEOF;
        r := if bracketp != 0 then Failed(42) else Returned(ep + 1, sp + 1);
      } else if !src.sed {
        buf[ep] := CCEOF;
        nodelim := true;
        r := if bracketp != 0 then Failed(42) else Returned(ep + 1, sp);
      } else {
        r := Failed(36);
      }
      assert AllSoFar(done, cur) + [] == AllSoFar(done, cur);
      assert buf[ep0..ep] == before;
      assert buf[ep0..ep + 1] == before + [buf[ep]];
    }

    /** A new item, where no suffix applies to the last one. */
    method NextItem(src: Input, sp: nat, buf: array<byte>, ghost ep0: nat, ep: nat, endbuf: nat, ghost lastep: int,
                    bracket: array<Group>, bracketp: nat, closed: nat, ghost want: Parsed, ghost spill: Option<byte>,
                    ghost done: seq<Item>, ghost cur: Option<Item>, ghost g: Groups)
      returns (code: int, sp': nat, ep': nat, bracketp': nat, closed': nat,
               ghost done': seq<Item>, ghost cur': Option<Item>, ghost g': Groups)
      requires CodeAt(buf, ep0, ep, lastep, done, cur) && want == Continued(src, sp, ep - ep0, done, cur, g)
      requires GroupsAre(bracket, bracketp, nbra, closed, g)
      requires ep < endbuf <= buf.Length && src.room == endbuf - ep0
      requires spill == StillSpilled(src, sp, ep - ep0, cur, g) && (endbuf == buf.Length ==> spill.None?)
      requires sp < |src.p| && src.p[sp] != src.eof && src.p[sp] != NEWLINE
      requires cur.Some? ==> !StarApplies(src, sp, cur.value) && !IntervalApplies(src, sp)
      modifies this`nbra, buf, bracket
      ensures Untouched(buf, ep, endbuf + 1)
      ensures code != 0 ==> want == Reject(code) && SpillStored(buf, endbuf, spill)
      ensures code == 0 ==> sp < sp' && CodeAt(buf, ep0, ep', ep, done', cur')
                            && want == Continued(src, sp', ep' - ep0, done', cur', g')
                            && SpillPending(buf, endbuf, ep', spill, StillSpilled(src, sp', ep' - ep0, cur', g'))
                            && GroupsAre(bracket, bracketp', nbra, closed', g')
    {
      hide ItemBytes, Continued, StillSpilled;
      ghost var read := ReadPiece(src, sp, ep - ep0, g);
      TrackItem(want, src, sp, ep - ep0, done, cur, g);
      SpillItem(src, sp, ep - ep0, cur, g);
      code, sp', ep', bracketp', nbra, closed' :=
        AppendPiece(src, sp, buf, ep0, ep, endbuf, lastep, bracket, bracketp, nbra, closed, done, cur, g);
      done', cur', g' := AllSoFar(done, cur), None, g;
      if code == 0 {
        cur', g' := Some(Item(read.piece, false, [])), read.g;
      }
    }

    /** A suffix of the last item or a new item. */
    method ItemToken(src: Input, sp: nat, buf: array<byte>, ghost ep0: nat, ep: nat, endbuf: nat, lastep: int,
                     bracket: array<Group>, bracketp: nat, closed: nat, ghost want: Parsed, ghost spill: Option<byte>,
                     ghost done: seq<Item>, ghost cur: Option<Item>, ghost g: Groups)
      returns (code: int, sp': nat, ep': nat, lastep': int, bracketp': nat, closed': nat,
               ghost done': seq<Item>, ghost cur': Option<Item>, ghost g': Groups)
      requires CodeAt(buf, ep0, ep, lastep, done, cur) && want == Continued(src, sp, ep - ep0, done, cur, g)
      requires GroupsAre(bracket, bracketp, nbra, closed, g)
      requires ep < endbuf <= buf.Length && src.room == endbuf - ep0
      requires spill == StillSpilled(src, sp, ep - ep0, cur, g) && (endbuf == buf.Length ==> spill.None?)
      requires sp < |src.p| && src.p[sp] != src.eof && src.p[sp] != NEWLINE
      modifies this`nbra, buf, bracket
      ensures Untouched(buf, ep0, endbuf + 1)
      ensures code != 0 ==> want == Reject(code) && SpillStored(buf, endbuf, spill)
      ensures code == 0 ==> sp < sp' && CodeAt(buf, ep0, ep', lastep', done', cur')
                            && want == Continued(src, sp', ep' - ep0, done', cur', g')
                            && SpillPending(buf, endbuf, ep', spill, StillSpilled(src, sp', ep' - ep0, cur', g'))
                            && GroupsAre(bracket, bracketp', nbra, closed', g')
    {
      hide ItemBytes, Continued, StillSpilled;
      var star, interval := TakesSuffix(src, sp, buf, ep0, ep, lastep, done, cur);
      if star || interval {
        lastep', bracketp', closed', done', g' := lastep, bracketp, closed, done, g;
        code, sp', ep', cur' := AddSuffix(src, sp, buf, ep0, ep, endbuf, lastep, star, want, spill, done, cur, g);
        return;
      }
      lastep' := ep;
      code, sp', ep', bracketp', closed', done', cur', g' :=
        NextItem(src, sp, buf, ep0, ep, endbuf, lastep, bracket, bracketp, closed, want, spill, done, cur, g);
    }

    /** The loop of `compile`. */
    method CompileLoop(src: Input, sp0: nat, buf: array<byte>, ep0: nat, endbuf: nat,
                       ghost want: Parsed, ghost spill: Option<byte>, ghost g0: Groups)
      returns (r: Compiled)
      requires endbuf <= buf.Length && ep0 <= buf.Length && src.room == endbuf - ep0 && g0 == NO_GROUPS
      requires want == Continued(src, sp0, 0, [], None, g0) && spill == StillSpilled(src, sp0, 0, None, g0)
      requires endbuf == buf.Length || ep0 > endbuf ==> spill.None?
      modifies this`nbra, this`nodelim, buf
      ensures Untouched(buf, ep0, endbuf + 1) && SpillStored(buf, endbuf, spill)
      ensures Agrees(r, want, buf, ep0) && (want.Accept? ==> nodelim == (old(nodelim) || want.newline))
    {
      hide ItemBytes, Encode, Continued, StillSpilled;
      ghost var done: seq<Item>, cur: Option<Item>, g := [], None, g0;
      var sp: nat, ep: nat, lastep: int := sp0, ep0, -1;
      var bracket := new Group[NBRA](_ => 0);
      var bracketp, closed := 0, 0;
      nbra := 0;
      while true
        invariant CodeAt(buf, ep0, ep, lastep, done, cur) && want == Continued(src, sp, ep - ep0, done, cur, g)
        invariant SpillPending(buf, endbuf, ep, spill, StillSpilled(src, sp, ep - ep0, cur, g))
        invariant GroupsAre(bracket, bracketp, nbra, closed, g)
        invariant fresh(bracket) && Untouched(buf, ep0, endbuf + 1) && nodelim == old(nodelim)
        decreases |src.p| - sp
      {
        TrackFails(want, src, sp, ep - ep0, done, cur, g);
        if ep >= endbuf {
          SpillStops(src, sp, ep - ep0, cur, g);
          return Failed(50);
        }
        if sp >= |src.p| {
          SpillStops(src, sp, ep - ep0, cur, g);
          return Failed(OFF_END);
        }
        if src.p[sp] == src.eof || src.p[sp] == NEWLINE {
          SpillStops(src, sp, ep - ep0, cur, g);
          r := Finish(src, sp, buf, ep0, ep, lastep, bracketp, want, done, cur, g);
          return;
        }
        var code;
        code, sp, ep, lastep, bracketp, closed, done, cur, g :=
          ItemToken(src, sp, buf, ep0, ep, endbuf, lastep, bracket, bracketp, closed, want, spill, done, cur, g);
        if code != 0 {
          return Failed(code);
        }
      }
    }

    /** `compile`, for a pattern that is not empty, from the byte at sp0 on. */
    method CompileItems(src: Input, sp0: nat, buf: array<byte>, ep0: nat, endbuf: nat) returns (r: Compiled)
      requires endbuf <= buf.Length && ep0 <= buf.Length && src.room == endbuf - ep0
      requires endbuf == buf.Length ==> SpilledItems(src, sp0, 0, NO_GROUPS).None?
      modifies this`nbra, this`nodelim, buf
      ensures Untouched(buf, ep0, endbuf + 1) && SpillStored(buf, endbuf, SpilledItems(src, sp0, 0, NO_GROUPS))
      ensures Agrees(r, ParseItems(src, sp0, 0, NO_GROUPS), buf, ep0)
      ensures var want := ParseItems(src, sp0, 0, NO_GROUPS);
              want.Accept? ==> nodelim == (old(nodelim) || want.newline)
    {
      ghost var want, spill := ParseItems(src, sp0, 0, NO_GROUPS), SpilledItems(src, sp0, 0, NO_GROUPS);
      PrependNothing(want);
      if ep0 > endbuf {
        SpillStops(src, sp0, 0, None, NO_GROUPS);
      }
      r := CompileLoop(src, sp0, buf, ep0, endbuf, want, spill, NO_GROUPS);
    }

    /** The pattern has nothing before its delimiter or newline. */
    predicate Empty(p: seq<byte>, eof: int) {
      p != [] && (p[0] == eof || p[0] == NEWLINE)
    }

    /** A pattern that is not empty, with the space from ep to endbuf. */
    ghost predicate Fits(instring: seq<byte>, seof: int, ep: nat, endbuf: nat)
      reads this
    {
      instring != [] && !Empty(instring, seof) ==> !Overruns(Input(instring, seof, sed, endbuf - ep))
    }

    /**
     `compile`. An empty pattern leaves the code in the buffer for reuse; any other pattern is compiled as
     the reference parser reads it, with the same error or with the code of the same items. The code of an
     accepted pattern stays below endbuf. A rejected pattern that overruns the space stores one byte at endbuf,
     so endbuf may be the end of the buffer only for a pattern that does not.
     */
    method Compile(instring: seq<byte>, buf: array<byte>, ep: nat, endbuf: nat, seof: int) returns (r: Compiled)
      requires ep < buf.Length && endbuf <= buf.Length
      requires endbuf == buf.Length ==> Fits(instring, seof, ep, endbuf)
      modifies this`nbra, this`circf, this`nodelim, buf
      ensures Untouched(buf, ep, if Fits(instring, seof, ep, endbuf) then endbuf else endbuf + 1)
      ensures instring == [] ==> r == Failed(OFF_END)
      ensures Empty(instring, seof) ==>
                && buf[..] == old(buf[..]) && circf == old(circf) && nbra == old(nbra)
                && r == (if buf[ep] == 0 && !sed then Failed(41)
                         else Returned(ep, if instring[0] == NEWLINE then 0 else 1))
                && nodelim == (old(nodelim) || instring[0] == NEWLINE)
      ensures instring != [] && !Empty(instring, seof) ==>
                && circf == (instring[0] == CARET)
                && var src := Input(instring, seof, sed, endbuf - ep);
                   && Agrees(r, Parse(src), buf, ep)
                   && (Parse(src).Accept? ==> nodelim == (old(nodelim) || Parse(src).newline))
                   && (r.Returned? ==> Fits(instring, seof, ep, endbuf) && r.ep <= endbuf)
                   && SpillStored(buf, endbuf, Spilled(src))
    {
      if instring == [] {
        return Failed(OFF_END);
      }
      if Empty(instring, seof) {
        if instring[0] == NEWLINE {
          nodelim := true;
        }
        r := if buf[ep] == 0 && !sed then Failed(41) else Returned(ep, if instring[0] == NEWLINE then 0 else 1);
        return;
      }
      circf := instring[0] == CARET;
      var src := Input(instring, seof, sed, endbuf - ep);
      OverrunIsRejected(src);
      r := CompileItems(src, if circf then 1 else 0, buf, ep, endbuf);
    }
  }
}
