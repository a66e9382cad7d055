/** The parts of `compile` that write one piece or one interval into the code buffer. */
module Emitter {
  import opened Bytes
  import opened Program
  import opened Pattern
  import opened Space

  /** Only the bytes from lo up to hi may have changed. */
  twostate predicate Untouched(buf: array<byte>, lo: int, hi: int)
    reads buf
  {
    forall k | 0 <= k < buf.Length && !(lo <= k < hi) :: buf[k] == old(buf[k])
  }

  /** The byte that spills over is stored at endbuf; without one nothing is stored there. */
  twostate predicate SpillStored(buf: array<byte>, endbuf: nat, new spill: Option<byte>)
    reads buf
  {
    match spill
    case None => endbuf < buf.Length ==> buf[endbuf] == old(buf[endbuf])
    case Some(b) => endbuf < buf.Length && buf[endbuf] == b
  }

  /** With the code at ep, the byte that spills over is that of the rest, or it has been stored. */
  twostate predicate SpillPending(buf: array<byte>, endbuf: nat, ep: nat, new spill: Option<byte>,
                                  new rest: Option<byte>)
    reads buf
  {
    SpillStored(buf, endbuf, if ep <= endbuf then None else spill) && (ep <= endbuf ==> spill == rest)
  }

  /** The n bytes at ep are the bitmap of s. */
  ghost predicate MapAt(buf: array<byte>, ep: nat, n: nat, s: set<byte>)
    reads buf
  {
    n <= 32 && ep + n <= buf.Length && buf[ep..ep + n] == Bitmap(s, n)
  }

  /** PLACE */
  method Place(buf: array<byte>, ep: nat, c: byte, ghost n: nat, ghost s: set<byte>)
    requires MapAt(buf, ep, n, s) && c / 8 < n
    modifies buf
    ensures MapAt(buf, ep, n, s + {c}) && Untouched(buf, ep, ep + n)
  {
    BitmapPlace(s, n, c);
    assert buf[ep + c / 8] == buf[ep..ep + n][c / 8];
    buf[ep + c / 8] := SetBit(buf[ep + c / 8], c % 8);
    assert buf[ep..ep + n] == old(buf[ep..ep + n])[c / 8 := buf[ep + c / 8]];
  }

  /** PLACE for each byte from lc up to but not including c. */
  method PlaceRange(buf: array<byte>, ep: nat, lc0: byte, c: byte, ghost n: nat, ghost s: set<byte>)
    requires MapAt(buf, ep, n, s) && c / 8 < n
    modifies buf
    ensures MapAt(buf, ep, n, s + (Between(lc0, c) - {c})) && Untouched(buf, ep, ep + n)
  {
    var lc: int := lc0;
    ghost var done := s;
    while lc < c
      invariant lc0 <= lc && (lc <= c || lc == lc0)
      invariant MapAt(buf, ep, n, done) && Untouched(buf, ep, ep + n)
      invariant done + (Between(lc, c) - {c}) == s + (Between(lc0, c) - {c})
    {
      ghost var b: byte := lc;
      Place(buf, ep, lc, n, done);
      BetweenBounds(lc + 1, c);
      done := done + {b};
      lc := lc + 1;
    }
    BetweenBounds(lc, c);
    assert done == s + (Between(lc0, c) - {c});
  }

  lemma {:induction false} BetweenBounds(lo: int, hi: byte)
    requires 0 <= lo
    ensures forall x: byte :: x in Between(lo, hi) <==> lo <= x <= hi
    decreases hi - lo
  {
    if lo <= hi {
      BetweenBounds(lo + 1, hi);
    }
  }

  method Clear(buf: array<byte>, from: nat, to: nat)
    requires from <= to <= buf.Length
    modifies buf
    ensures Untouched(buf, from, to) && forall k | from <= k < to :: buf[k] == 0
  {
    for i := from to to
      invariant Untouched(buf, from, to) && forall k | from <= k < i :: buf[k] == 0
    {
      buf[i] := 0;
    }
  }

  /** Turn a 16-byte map into a 32-byte map. */
  method Widen(buf: array<byte>, ep: nat, ghost s: set<byte>)
    requires 0 < ep && ep + 32 <= buf.Length && MapAt(buf, ep, 16, s) && !Wide(s)
    modifies buf
    ensures MapAt(buf, ep, 32, s) && buf[ep - 1] == CXCL && Untouched(buf, ep - 1, ep + 32)
  {
    buf[ep - 1] := CXCL;
    Clear(buf, ep + 16, ep + 32);
    ghost var bits := buf[ep..ep + 32];
    forall k | 0 <= k < 32
      ensures bits[k] == MapByte(s, k)
    {
      if k < 16 {
        assert bits[k] == old(buf[ep..ep + 16])[k];
        BitmapAt(s, 16, k);
      } else {
        NoDigits(s, 8 * k, 8 * k + 8);
      }
    }
    BitmapFromBytes(s, 32, bits);
  }

  /** Before an 8-bit byte goes into a 16-byte map, make it a 32-byte map if there is room for that. */
  method MakeRoom(buf: array<byte>, ep: nat, endbuf: nat, c: byte, narrow: bool, ghost s: set<byte>)
    returns (narrow': bool, code: int)
    requires 0 < ep && ep + 16 < endbuf <= buf.Length && (narrow ==> !Wide(s)) && (!narrow ==> ep + 32 < endbuf)
    requires MapAt(buf, ep, if narrow then 16 else 32, s)
    modifies buf
    ensures Untouched(buf, ep - 1, endbuf)
    ensures code == if c >= 128 && ep + 32 >= endbuf then 50 else 0
    ensures code == 0 ==>
              && narrow' == (narrow && c < 128)
              && MapAt(buf, ep, if narrow' then 16 else 32, s)
              && buf[ep - 1] == if narrow == narrow' then old(buf[ep - 1]) else CXCL
  {
    narrow', code := narrow, 0;
    if c >= 128 && narrow {
      if ep + 32 >= endbuf {
        code := 50;
        return;
      }
      Widen(buf, ep, s);
      narrow' := false;
    }
  }

  /** The class being scanned: its opcode and its map, narrow or wide, hold the bytes written so far. */
  ghost predicate ClassAt(buf: array<byte>, ep: nat, endbuf: nat, narrow: bool, s: set<byte>)
    reads buf
  {
    && 0 < ep && ep + 16 < endbuf <= buf.Length && (!narrow ==> ep + 32 < endbuf)
    && (narrow <==> !Wide(s))
    && buf[ep - 1] == (if narrow then CCL else CXCL)
    && MapAt(buf, ep, if narrow then 16 else 32, s)
  }

  lemma WideMembers(s: set<byte>, lc: byte, c: byte)
    ensures Wide(s + {c}) <==> Wide(s) || c >= 128
    ensures Wide(s + (Between(lc, c) + {c})) <==> Wide(s) || c >= 128
  {
    BetweenBounds(lc, c);
    if c >= 128 {
      assert c in s + {c} && c in s + (Between(lc, c) + {c});
    }
    if x :| x in s && x >= 128 {
      assert x in s + {c} && x in s + (Between(lc, c) + {c});
    }
  }

  /** One byte or range of a bracket expression; c0 is its first byte and sp0 comes after it. */
  method ScanMember(p: seq<byte>, c0: byte, lc: byte, sp0: nat, buf: array<byte>, ep: nat, endbuf: nat, narrow: bool,
                    ghost s: set<byte>)
    returns (code: int, c: byte, sp: nat, narrow': bool, closed: bool, ghost added: set<byte>)
    requires 0 < sp0 <= |p| && c0 == p[sp0 - 1] && ClassAt(buf, ep, endbuf, narrow, s)
    modifies buf
    ensures Untouched(buf, ep - 1, endbuf)
    ensures code == 0 ==> ClassAt(buf, ep, endbuf, narrow', s + added) && sp0 <= sp <= |p|
    ensures Members(p, sp0 - 1, lc, ep + 32 < endbuf)
         == if code != 0 then NoSet(code)
            else if closed then GotSet(added, sp)
            else MoreMembers(added, p, sp, c, ep + 32 < endbuf)
  {
    code, c, sp, narrow', closed, added := 0, c0, sp0, narrow, false, {};
    if c == 0 || c == NEWLINE {
      code := 49;
      return;
    }
    narrow', code := MakeRoom(buf, ep, endbuf, c, narrow, s);
    if code != 0 {
      return;
    }
    if c == HYPHEN && lc != 0 {
      if sp >= |p| {
        code := OFF_END;
        return;
      }
      c, sp := p[sp], sp + 1;
      if c == RBRACKET {
        Place(buf, ep, HYPHEN, if narrow' then 16 else 32, s);
        closed, added := true, {HYPHEN};
        return;
      }
      narrow', code := MakeRoom(buf, ep, endbuf, c, narrow', s);
      if code != 0 {
        return;
      }
      PlaceRange(buf, ep, lc, c, if narrow' then 16 else 32, s);
      added := Between(lc, c) - {c};
    } else {
      assert s + added == s;
    }
    Place(buf, ep, c, if narrow' then 16 else 32, s + added);
    WideMembers(s, lc, c);
    if c0 == HYPHEN && lc != 0 {
      assert s + added + {c} == s + (Between(lc, c) + {c});
      added := Between(lc, c) + {c};
    } else {
      assert s + added + {c} == s + {c};
      added := {c};
    }
  }

  /** The scan of a bracket expression, from its first byte c = p[sp0 - 1] to its closing bracket. */
  method ScanClass(p: seq<byte>, sp0: nat, buf: array<byte>, ep: nat, endbuf: nat, ghost none: set<byte>)
    returns (code: int, sp: nat, narrow: bool, ghost written: set<byte>)
    requires 0 < sp0 <= |p| && none == {} && ClassAt(buf, ep, endbuf, true, none)
    modifies buf
    ensures Untouched(buf, ep - 1, endbuf)
    ensures match Members(p, sp0 - 1, 0, ep + 32 < endbuf)
            case NoSet(e) => code == e && code != 0
            case GotSet(s, next) => code == 0 && sp == next && written == s
    ensures code == 0 ==> ClassAt(buf, ep, endbuf, narrow, written)
  {
    code, sp, narrow, written := 0, sp0, true, none;
    var lc: byte, c := 0, p[sp - 1];
    ghost var fits, goal := ep + 32 < endbuf, Members(p, sp0 - 1, 0, ep + 32 < endbuf);
    while true
      invariant 0 < sp <= |p| && c == p[sp - 1]
      invariant code == 0 && Untouched(buf, ep - 1, endbuf) && ClassAt(buf, ep, endbuf, narrow, written)
      invariant goal == Joined(written, Members(p, sp - 1, lc, fits))
      decreases |p| - sp
    {
      var closed;
      ghost var added;
      code, lc, sp, narrow, closed, added := ScanMember(p, c, lc, sp, buf, ep, endbuf, narrow, written);
      if code != 0 {
        return;
      }
      ghost var was := written;
      written := written + added;
      if closed {
        return;
      }
      MoreMembersNext(goal, was, added, p, sp, lc, fits);
      if sp >= |p| {
        code := OFF_END;
        return;
      }
      c, sp := p[sp], sp + 1;
      if c == RBRACKET {
        return;
      }
    }
  }

  lemma MoreMembersNext(goal: Scanned, s: set<byte>, added: set<byte>, p: seq<byte>, sp: nat, lc: byte, fits: bool)
    requires goal == Joined(s, MoreMembers(added, p, sp, lc, fits))
    ensures goal == if sp >= |p| then NoSet(OFF_END)
                    else if p[sp] == RBRACKET then GotSet(s + added, sp + 1)
                    else Joined(s + added, Members(p, sp, lc, fits))
  {
    if sp < |p| && p[sp] != RBRACKET {
      JoinedTwice(s, added, Members(p, sp, lc, fits));
    }
  }

  lemma JoinedTwice(s: set<byte>, s': set<byte>, r: Scanned)
    ensures Joined(s, Joined(s', r)) == Joined(s + s', r)
  {
    if r.GotSet? {
      assert s + (s' + r.written) == s + s' + r.written;
    }
  }

  /** Flip all bits of 32 bytes. */
  method Flip(buf: array<byte>, ep: nat)
    requires ep + 32 <= buf.Length
    modifies buf
    ensures Untouched(buf, ep, ep + 32)
    ensures forall k | ep <= k < ep + 32 :: buf[k] == 255 - old(buf[k])
  {
    for i := ep to ep + 32
      invariant forall k | ep <= k < i :: buf[k] == 255 - old(buf[k])
      invariant forall k | 0 <= k < buf.Length && !(ep <= k < i) :: buf[k] == old(buf[k])
    {
      buf[i] := 255 - buf[i];
    }
  }

  lemma ComplementMap(s: set<byte>, was: seq<byte>, bits: seq<byte>)
    requires |bits| == 32 && was == Bitmap(s, 32)
    requires forall k | 0 <= k < 32 :: bits[k] == (255 - was[k]) - (if k == 0 then (255 - was[k]) % 2 else 0)
    ensures bits == Bitmap(Others(s) - {0}, 32)
  {
    forall k | 0 <= k < 32
      ensures bits[k] == MapByte(Others(s) - {0}, k)
    {
      BitmapAt(s, 32, k);
      BitmapComplement(s, k);
    }
    BitmapFromBytes(Others(s) - {0}, 32, bits);
  }

  /** Complement a 32-byte map, NUL excepted. */
  method Complement(buf: array<byte>, ep: nat, ghost s: set<byte>)
    requires MapAt(buf, ep, 32, s)
    modifies buf
    ensures MapAt(buf, ep, 32, Others(s) - {0}) && Untouched(buf, ep, ep + 32)
  {
    ghost var was := buf[ep..ep + 32];
    Flip(buf, ep);
    buf[ep] := buf[ep] - buf[ep] % 2;
    ghost var bits := buf[ep..ep + 32];
    assert forall k | 0 <= k < 32 :: bits[k] == (255 - was[k]) - (if k == 0 then (255 - was[k]) % 2 else 0);
    ComplementMap(s, was, bits);
  }

  /** Negate a scanned class if need be and step over its map. */
  method FinishClass(buf: array<byte>, start: nat, endbuf: nat, neg: bool, narrow: bool, ghost written: set<byte>)
    returns (ep: nat)
    requires ClassAt(buf, start + 1, endbuf, narrow, written)
    modifies buf
    ensures Untouched(buf, start, endbuf) && start < ep <= endbuf
    ensures buf[start..ep] == ItemBytes(Item(BracketPiece(neg, written), false, []))
  {
    if neg {
      if !narrow {
        Complement(buf, start + 1, written);
      } else {
        buf[start] := NCCL;
        Place(buf, start + 1, 0, 16, written);
      }
    }
    ep := start + if narrow then 17 else 33;
    assert buf[start..ep] == [buf[start]] + buf[start + 1..ep];
    assert buf[start + 1..ep] == Operands(BracketPiece(neg, written));
  }

  /** The opcode and an empty map. */
  method StartClass(buf: array<byte>, start: nat, endbuf: nat) returns (ghost none: set<byte>)
    requires start + 17 < endbuf <= buf.Length
    modifies buf
    ensures none == {} && ClassAt(buf, start + 1, endbuf, true, none) && Untouched(buf, start, endbuf)
  {
    none := {};
    buf[start] := CCL;
    Clear(buf, start + 1, start + 17);
    ghost var bits := buf[start + 1..start + 17];
    forall k | 0 <= k < 16
      ensures bits[k] == MapByte(none, k)
    {
      NoDigits(none, 8 * k, 8 * k + 8);
    }
    BitmapFromBytes(none, 16, bits);
  }

  /** The bytes of a bracket expression and its negation. */
  method ClassBody(p: seq<byte>, sp0: nat, buf: array<byte>, start: nat, endbuf: nat, neg: bool, ghost none: set<byte>,
                   ghost g: Groups)
    returns (code: int, sp: nat, ep: nat)
    requires 0 < sp0 <= |p| && none == {} && ClassAt(buf, start + 1, endbuf, true, none)
    modifies buf
    ensures Untouched(buf, start, endbuf) && (code == 0 ==> ep <= endbuf)
    ensures Emitted(buf, start, BracketRead(neg, Members(p, sp0 - 1, 0, start + 33 < endbuf), g), code, sp, ep)
  {
    var narrow;
    ghost var written;
    code, sp, narrow, written := ScanClass(p, sp0, buf, start + 1, endbuf, none);
    ep := start + 1;
    if code == 0 {
      ep := FinishClass(buf, start, endbuf, neg, narrow, written);
    }
  }

  /** The first byte of a bracket expression, after a caret if there is one; sp is after that byte. */
  method OpenClass(p: seq<byte>, sp0: nat) returns (code: int, neg: bool, sp: nat)
    ensures code == 0 ==> sp0 < |p| && neg == (p[sp0] == CARET) && sp == (if neg then sp0 + 2 else sp0 + 1) <= |p|
    ensures code != 0 ==> code == OFF_END && (sp0 >= |p| || (p[sp0] == CARET && sp0 + 1 >= |p|))
  {
    code, neg, sp := 0, false, sp0 + 1;
    if sp > |p| {
      code := OFF_END;
    } else if p[sp0] == CARET {
      neg, sp := true, sp + 1;
      if sp > |p| {
        code := OFF_END;
      }
    }
  }

  /** A bracket expression: opcode and map at ep0, from the pattern after `[`. */
  method CompileBracket(src: Input, sp0: nat, buf: array<byte>, ep0: nat, endbuf: nat, ghost at: nat, ghost g: Groups)
    returns (code: int, sp: nat, ep: nat)
    requires ep0 < endbuf <= buf.Length && src.room - at == endbuf - ep0
    modifies buf
    ensures Untouched(buf, ep0, endbuf)
    ensures Emitted(buf, ep0, ReadBracket(src, sp0, at, g), code, sp, ep) && (code == 0 ==> ep <= endbuf)
  {
    var p := src.p;
    code, sp, ep := 0, sp0, ep0;
    if ep + 17 >= endbuf {
      code := 50;
      return;
    }
    ghost var none := StartClass(buf, ep, endbuf);
    var neg;
    code, neg, sp := OpenClass(p, sp);
    if sp0 < |p| {
      ReadBracketFrom(src, sp0, at, g, p[sp0] == CARET);
    }
    if code == 0 {
      code, sp, ep := ClassBody(p, sp, buf, ep0, endbuf, neg, none, g);
    }
  }

  /** The outcome of reading a piece, with its code at ep0. */
  ghost predicate Emitted(buf: array<byte>, ep0: nat, r: Read, code: int, sp: nat, ep: nat)
    reads buf
  {
    match r
    case NoPiece(e) => code == e && code != 0
    case GotPiece(x, next, _) =>
      && code == 0 && sp == next
      && ep0 < ep <= buf.Length && buf[ep0..ep] == ItemBytes(Item(x, false, []))
  }

  /** The number at sp0; sp is after the byte c that ends it. */
  method ReadNumber(p: seq<byte>, sp0: nat) returns (code: int, i: nat, c: byte, sp: nat)
    ensures match Number(p, sp0, 0)
            case NoCount(e) => code == e && code != 0
            case GotCount(n, _, next) => code == 0 && i == n && sp == next + 1 && sp <= |p| && c == p[next]
  {
    code, i, c, sp := 0, 0, 0, sp0;
    if sp >= |p| {
      code := OFF_END;
      return;
    }
    c, sp := p[sp], sp + 1;
    while true
      invariant code == 0 && sp0 < sp <= |p| && c == p[sp - 1]
      invariant Number(p, sp0, 0) == Number(p, sp - 1, i)
      decreases |p| - sp
    {
      if !IsDigit(c) {
        code := 16;
        return;
      }
      i := 10 * i + (c - DIGIT_0);
      if sp >= |p| {
        code := OFF_END;
        return;
      }
      c, sp := p[sp], sp + 1;
      if c == BACKSLASH || c == COMMA {
        return;
      }
    }
  }

  /** An interval: two bytes at ep0, from the pattern after the opening brace. */
  method CompileInterval(p: seq<byte>, sp0: nat, buf: array<byte>, ep0: nat) returns (code: int, sp: nat, ep: nat)
    requires ep0 < buf.Length && (SecondBound(p, sp0).Some? ==> ep0 + 1 < buf.Length)
    modifies buf
    ensures Untouched(buf, ep0, ep0 + 2) && SpillStored(buf, ep0 + 1, SecondBound(p, sp0))
    ensures match Interval(p, sp0)
            case NoCount(e) => code == e && code != 0
            case GotCount(lo, hi, next) =>
              code == 0 && sp == next && ep == ep0 + 2 <= buf.Length && buf[ep0] == lo && buf[ep0 + 1] == hi
  {
    var i, c;
    var cflg := false;
    ghost var m := Number(p, sp0, 0);
    code, sp, ep := 0, sp0, ep0;
    while true
      invariant Untouched(buf, ep0, ep0 + 1)
      invariant !cflg ==> sp == sp0 && ep == ep0
      invariant cflg ==> m.GotCount? && m.lo < 255 && p[m.next] == COMMA
                         && sp == m.next + 1 < |p| && p[sp] != BACKSLASH && ep == ep0 + 1 && buf[ep0] == m.lo
      decreases !cflg
    {
      code, i, c, sp := ReadNumber(p, sp);
      if code != 0 {
        return;
      }
      if i >= 255 {
        code := 11;
        return;
      }
      buf[ep] := i;
      ep := ep + 1;
      if c != COMMA {
        break;
      }
      if cflg {
        code := 44;
        return;
      }
      cflg := true;
      if sp >= |p| {
        code := OFF_END;
        return;
      }
      if p[sp] == BACKSLASH {
        sp := sp + 1;
        buf[ep] := OPEN_ENDED;
        ep := ep + 1;
        break;
      }
    }
    if sp >= |p| {
      code := OFF_END;
      return;
    }
    sp := sp + 1;
    if p[sp - 1] != RBRACE {
      code := 45;
    } else if !cflg {
      buf[ep] := i;
      ep := ep + 1;
    } else if buf[ep - 1] < buf[ep - 2] {
      code := 46;
    }
  }

  /**
   The bracket stack and the group counters are what the reference parser knows about groups, and that is in
   order: the depth is the number of groups opened and not closed, and the open ones are in order of opening.
   */
  ghost predicate GroupsAre(bracket: array<Group>, bracketp: nat, nbra: nat, closed: nat, g: Groups)
    reads bracket
  {
    match g
    case Groups(n, stack, c) =>
      && bracket.Length == NBRA && bracketp <= nbra <= NBRA
      && bracket[..bracketp] == stack && nbra == n && closed == c && GroupsOk(g)
  }

  method EmitTwo(buf: array<byte>, ep0: nat, op: byte, arg: byte) returns (ep: nat)
    requires ep0 + 2 <= buf.Length
    modifies buf
    ensures Untouched(buf, ep0, ep0 + 2) && ep == ep0 + 2 && buf[ep0..ep] == [op, arg]
  {
    buf[ep0], buf[ep0 + 1] := op, arg;
    ep := ep0 + 2;
  }

  /** An escaped character, from the pattern after the backslash. */
  method CompileEscape(src: Input, sp0: nat, buf: array<byte>, ep0: nat, bracket: array<Group>, bracketp: nat,
                       nbra: nat, closed: nat, ghost g: Groups)
    returns (code: int, sp: nat, ep: nat, bracketp': nat, nbra': nat, closed': nat)
    requires GroupsAre(bracket, bracketp, nbra, closed, g)
    requires ReadEscape(src, sp0, g).GotPiece? ==> ep0 + 2 <= buf.Length
    modifies buf, bracket
    ensures Untouched(buf, ep0, if code == 0 then ep0 + 2 else ep0)
    ensures Emitted(buf, ep0, ReadEscape(src, sp0, g), code, sp, ep) && (code == 0 ==> ep == ep0 + 2)
    ensures code == 0 ==> GroupsAre(bracket, bracketp', nbra', closed', ReadEscape(src, sp0, g).g)
  {
    code, sp, ep, bracketp', nbra', closed' := 0, sp0, ep0, bracketp, nbra, closed;
    if sp >= |src.p| {
      code := OFF_END;
      return;
    }
    var c := src.p[sp];
    sp := sp + 1;
    if c == LPAREN {
      if nbra >= NBRA {
        code := 43;
        return;
      }
      bracket[bracketp] := nbra;
      bracketp' := bracketp + 1;
      ep := EmitTwo(buf, ep, CBRA, nbra);
      nbra' := nbra + 1;
    } else if c == RPAREN {
      if bracketp == 0 {
        code := 42;
        return;
      }
      bracketp' := bracketp - 1;
      ep := EmitTwo(buf, ep, CKET, bracket[bracketp']);
      closed' := closed + 1;
    } else if c == NEWLINE {
      code := 36;
    } else if DIGIT_1 <= c <= DIGIT_9 {
      if c - DIGIT_1 >= closed {
        code := 25;
        return;
      }
      ep := EmitTwo(buf, ep, CBACK, c - DIGIT_1);
    } else {
      ep := EmitTwo(buf, ep, CCHR, if c == LETTER_N then NEWLINE else c);
    }
  }

  ghost predicate PieceFits(r: Read, ep: nat, endbuf: nat) { r.GotPiece? ==> ep + Size(r.piece) <= endbuf }

  /** The piece that starts with the byte before sp0. */
  method CompilePiece(src: Input, sp0: nat, buf: array<byte>, ep0: nat, endbuf: nat, bracket: array<Group>,
                      bracketp: nat, nbra: nat, closed: nat, ghost at: nat, ghost g: Groups)
    returns (code: int, sp: nat, ep: nat, bracketp': nat, nbra': nat, closed': nat)
    requires 0 < sp0 <= |src.p| && GroupsAre(bracket, bracketp, nbra, closed, g)
    requires ep0 < endbuf <= buf.Length && src.room - at == endbuf - ep0
    requires endbuf == buf.Length ==> PieceFits(ReadPiece(src, sp0 - 1, at, g), ep0, endbuf)
    modifies buf, bracket
    ensures Untouched(buf, ep0, if code == 0 && ep > endbuf then endbuf + 1 else endbuf)
    ensures code == 0 ==> ep <= endbuf || ep == endbuf + 1 == ep0 + 2
    ensures Emitted(buf, ep0, ReadPiece(src, sp0 - 1, at, g), code, sp, ep)
    ensures code == 0 ==> GroupsAre(bracket, bracketp', nbra', closed', ReadPiece(src, sp0 - 1, at, g).g)
  {
    var c := src.p[sp0 - 1];
    code, sp, ep, bracketp', nbra', closed' := 0, sp0, ep0, bracketp, nbra, closed;
    if c == PERIOD {
      buf[ep] := CDOT;
      ep := ep + 1;
    } else if c == DOLLAR && sp < |src.p| && (src.p[sp] == src.eof || src.p[sp] == NEWLINE) {
      buf[ep] := CDOL;
      ep := ep + 1;
    } else if c == LBRACKET {
      code, sp, ep := CompileBracket(src, sp, buf, ep, endbuf, at, g);
    } else if c == BACKSLASH {
      code, sp, ep, bracketp', nbra', closed' := CompileEscape(src, sp, buf, ep, bracket, bracketp, nbra, closed, g);
    } else {
      ep := EmitTwo(buf, ep, CCHR, c);
    }
  }

  /** The code from ep0 to ep is that of the items so far, and lastep is where the last of them starts. */
  ghost predicate CodeAt(buf: array<byte>, ep0: nat, ep: nat, lastep: int, done: seq<Item>, cur: Option<Item>)
    reads buf
  {
    match cur
    case None => done == [] && lastep == -1 && ep0 == ep <= buf.Length
    case Some(x) =>
      && ep0 <= lastep < ep <= buf.Length && Proper(x)
      && buf[ep0..lastep] == Encode(done) && buf[lastep..ep] == ItemBytes(x)
  }

  /** `*lastep |= STAR` changes the opcode of the last item and nothing else. */
  method PatchStar(buf: array<byte>, lastep: nat, ghost ep: nat)
    requires lastep < ep <= buf.Length
    modifies buf
    ensures Untouched(buf, lastep, lastep + 1)
    ensures buf[lastep..ep] == old(buf[lastep..ep])[0 := WithStar(old(buf[lastep]))]
  {
    buf[lastep] := WithStar(buf[lastep]);
  }

  /** `*lastep |= RNGE`, likewise. */
  method PatchRange(buf: array<byte>, lastep: nat, ghost ep: nat)
    requires lastep < ep <= buf.Length
    modifies buf
    ensures Untouched(buf, lastep, lastep + 1)
    ensures buf[lastep..ep] == old(buf[lastep..ep])[0 := WithRange(old(buf[lastep]))]
  {
    buf[lastep] := WithRange(buf[lastep]);
  }

  /** An interval on the last item: patch its opcode and append the two bounds. */
  method AddInterval(p: seq<byte>, sp0: nat, buf: array<byte>, ep: nat, lastep: nat)
    returns (code: int, sp: nat, ep': nat)
    requires lastep < ep < buf.Length && (SecondBound(p, sp0).Some? ==> ep + 1 < buf.Length)
    modifies buf
    ensures Untouched(buf, lastep, ep + 2) && SpillStored(buf, ep + 1, SecondBound(p, sp0))
    ensures match Interval(p, sp0)
            case NoCount(e) => code == e && code != 0
            case GotCount(lo, hi, next) =>
              && code == 0 && sp == next && ep' == ep + 2 <= buf.Length
              && buf[lastep..ep'] == old(buf[lastep..ep])[0 := WithRange(old(buf[lastep]))] + [lo, hi]
  {
    PatchRange(buf, lastep, ep);
    ghost var patched := buf[lastep..ep];
    code, sp, ep' := CompileInterval(p, sp0, buf, ep);
    assert buf[lastep..ep] == patched;
    if code == 0 {
      assert buf[lastep..ep + 2] == buf[lastep..ep] + [buf[ep], buf[ep + 1]];
    }
  }

  lemma SliceJoin(s: seq<byte>, lo: nat, mid: nat, hi: nat)
    requires lo <= mid <= hi <= |s|
    ensures s[lo..hi] == s[lo..mid] + s[mid..hi]
  {
  }

  /** All the code so far is that of all the items so far. */
  lemma CodeSoFar(buf: array<byte>, ep0: nat, ep: nat, lastep: int, done: seq<Item>, cur: Option<Item>)
    requires CodeAt(buf, ep0, ep, lastep, done, cur)
    ensures buf[ep0..ep] == Encode(AllSoFar(done, cur))
  {
    if cur.Some? {
      EncodeAppend(done, cur.value);
      SliceJoin(buf[..], ep0, lastep, ep);
    }
  }

  /** The byte at lastep tells whether the last item is a bare parenthesis. */
  lemma LastOpcode(buf: array<byte>, ep0: nat, ep: nat, lastep: int, done: seq<Item>, x: Item)
    requires CodeAt(buf, ep0, ep, lastep, done, Some(x))
    ensures buf[lastep] == CBRA || buf[lastep] == CKET <==> Paren(x) && x.bounds == []
  {
    assert buf[lastep] == buf[lastep..ep][0];
    ItemBytesHead(x);
    OpcodeOfParen(x);
  }

  /** The reference parser, resumed here, gives what it gave for the whole pattern. */
  ghost function Continued(src: Input, sp: nat, at: nat, done: seq<Item>, cur: Option<Item>, g: Groups): Parsed {
    match cur
    case None => Prepend(done, ParseItems(src, sp, at, g))
    case Some(x) => Prepend(done, ParseSuffixes(src, sp, at, g, x))
  }

  /** Where no suffix applies to the last item, a new item or the end of the pattern comes next. */
  lemma TrackRest(want: Parsed, src: Input, sp: nat, at: nat, done: seq<Item>, cur: Option<Item>, g: Groups)
    requires want == Continued(src, sp, at, done, cur, g) && at < src.room
    requires cur.Some? ==> !StarApplies(src, sp, cur.value) && !IntervalApplies(src, sp)
    ensures want == Prepend(AllSoFar(done, cur), ParseItems(src, sp, at, g))
  {
    if cur.Some? {
      PrependTwice(done, cur.value, ParseItems(src, sp, at, g));
    }
  }

  /** Without room or without input the pattern is rejected. */
  lemma TrackFails(want: Parsed, src: Input, sp: nat, at: nat, done: seq<Item>, cur: Option<Item>, g: Groups)
    requires want == Continued(src, sp, at, done, cur, g)
    ensures at >= src.room ==> want == Reject(50)
    ensures at < src.room && sp >= |src.p| ==> want == Reject(OFF_END)
  {
    if cur.Some? && (at >= src.room || sp >= |src.p|) {
      SuffixesStop(src, sp, at, g, cur.value);
    }
  }

  lemma TrackStar(want: Parsed, src: Input, sp: nat, at: nat, done: seq<Item>, x: Item, g: Groups)
    requires want == Continued(src, sp, at, done, Some(x), g) && at < src.room && StarApplies(src, sp, x)
    ensures want == Continued(src, sp + 1, at, done, Some(x.(starred := true)), g)
  {
  }

  lemma TrackInterval(want: Parsed, src: Input, sp: nat, at: nat, done: seq<Item>, x: Item, g: Groups)
    requires want == Continued(src, sp, at, done, Some(x), g) && at < src.room
    requires !StarApplies(src, sp, x) && IntervalApplies(src, sp)
    ensures match Interval(src.p, sp + 2)
            case NoCount(e) => want == Reject(e)
            case GotCount(lo, hi, next) =>
              want == Continued(src, next, at + 2, done, Some(x.(bounds := x.bounds + [(lo, hi)])), g)
  {
  }

  /** A star on the last item. */
  method StarSuffix(buf: array<byte>, ghost ep0: nat, ghost ep: nat, lastep: nat, ghost done: seq<Item>, ghost x: Item)
    requires CodeAt(buf, ep0, ep, lastep, done, Some(x)) && !(Paren(x) && x.bounds == [])
    modifies buf
    ensures CodeAt(buf, ep0, ep, lastep, done, Some(x.(starred := true)))
    ensures Untouched(buf, lastep, lastep + 1)
  {
    ItemBytesHead(x);
    assert buf[lastep] == buf[lastep..ep][0];
    PatchStar(buf, lastep, ep);
    ItemBytesWithStar(x);
    assert buf[ep0..lastep] == old(buf[ep0..lastep]);
  }

  /** An interval on the last item. */
  method IntervalSuffix(p: seq<byte>, sp: nat, buf: array<byte>, ghost ep0: nat, ep: nat, lastep: nat,
                        ghost done: seq<Item>, ghost x: Item)
    returns (code: int, sp': nat, ep': nat)
    requires CodeAt(buf, ep0, ep, lastep, done, Some(x)) && ep < buf.Length
    requires SecondBound(p, sp).Some? ==> ep + 1 < buf.Length
    modifies buf
    ensures Untouched(buf, lastep, ep + 2) && SpillStored(buf, ep + 1, SecondBound(p, sp))
    ensures match Interval(p, sp)
            case NoCount(e) => code == e && code != 0
            case GotCount(lo, hi, next) =>
              && code == 0 && sp' == next && ep' == ep + 2
              && CodeAt(buf, ep0, ep', lastep, done, Some(x.(bounds := x.bounds + [(lo, hi)])))
  {
    ItemBytesHead(x);
    assert buf[lastep] == buf[lastep..ep][0];
    code, sp', ep' := AddInterval(p, sp, buf, ep, lastep);
    if code == 0 {
      ItemBytesWithRange(x, (Interval(p, sp).lo, Interval(p, sp).hi));
      assert buf[ep0..lastep] == old(buf[ep0..lastep]);
    }
  }

  /** Does the last item take a star or an interval here? The byte at lastep tells. */
  method TakesSuffix(src: Input, sp: nat, buf: array<byte>, ghost ep0: nat, ghost ep: nat, lastep: int,
                     ghost done: seq<Item>, ghost cur: Option<Item>)
    returns (star: bool, interval: bool)
    requires CodeAt(buf, ep0, ep, lastep, done, cur) && sp < |src.p| && src.p[sp] != src.eof
    ensures star <==> cur.Some? && StarApplies(src, sp, cur.value)
    ensures interval <==> cur.Some? && IntervalApplies(src, sp)
  {
    if lastep < 0 {
      return false, false;
    }
    LastOpcode(buf, ep0, ep, lastep, done, cur.value);
    star := src.p[sp] == ASTERISK && buf[lastep] != CBRA && buf[lastep] != CKET;
    interval := src.p[sp] == BACKSLASH && sp + 1 < |src.p| && src.p[sp + 1] == LBRACE;
  }

  /** A star or an interval that the last item takes. */
  method AddSuffix(src: Input, sp: nat, buf: array<byte>, ghost ep0: nat, ep: nat, ghost endbuf: nat, lastep: nat,
                   star: bool, ghost want: Parsed, ghost spill: Option<byte>, ghost done: seq<Item>,
                   ghost cur: Option<Item>, ghost g: Groups)
    returns (code: int, sp': nat, ep': nat, ghost cur': Option<Item>)
    requires CodeAt(buf, ep0, ep, lastep, done, cur) && want == Continued(src, sp, ep - ep0, done, cur, g)
    requires cur.Some? && star == StarApplies(src, sp, cur.value) && (star || IntervalApplies(src, sp))
    requires ep < endbuf <= buf.Length && src.room == endbuf - ep0
    requires spill == StillSpilled(src, sp, ep - ep0, cur, g) && (endbuf == buf.Length ==> spill.None?)
    modifies buf
    ensures Untouched(buf, lastep, endbuf + 1)
    ensures code != 0 ==> want == Reject(code) && SpillStored(buf, endbuf, spill)
    ensures code == 0 ==> sp < sp' && ep0 <= ep' && CodeAt(buf, ep0, ep', lastep, done, cur')
                          && want == Continued(src, sp', ep' - ep0, done, cur', g)
                          && SpillPending(buf, endbuf, ep', spill, StillSpilled(src, sp', ep' - ep0, cur', g))
  {
    hide Continued, StillSpilled, ItemBytes, Encode, SecondBound;
    ghost var x, at := cur.value, ep - ep0;
    if star {
      TrackStar(want, src, sp, at, done, x, g);
      SpillStar(src, sp, at, x, g);
      StarSuffix(buf, ep0, ep, lastep, done, x);
      code, sp', ep', cur' := 0, sp + 1, ep, Some(x.(starred := true));
      return;
    }
    TrackInterval(want, src, sp, at, done, x, g);
    SpillInterval(src, sp, at, x, g);
    AcceptedBounds(src.p, sp + 2);
    code, sp', ep' := IntervalSuffix(src.p, sp + 2, buf, ep0, ep, lastep, done, x);
    ghost var r := Interval(src.p, sp + 2);
    cur' := if r.GotCount? then Some(x.(bounds := x.bounds + [(r.lo, r.hi)])) else cur;
  }

  lemma TrackItem(want: Parsed, src: Input, sp: nat, at: nat, done: seq<Item>, cur: Option<Item>, g: Groups)
    requires want == Continued(src, sp, at, done, cur, g) && at < src.room
    requires sp < |src.p| && src.p[sp] != src.eof && src.p[sp] != NEWLINE
    requires cur.Some? ==> !StarApplies(src, sp, cur.value) && !IntervalApplies(src, sp)
    ensures var r := ReadPiece(src, sp, at, g);
            && (r.NoPiece? ==> want == Reject(r.code))
            && (r.GotPiece? ==>
                  var x := Item(r.piece, false, []);
                  want == Continued(src, r.next, at + Size(r.piece), AllSoFar(done, cur), Some(x), r.g))
  {
    TrackRest(want, src, sp, at, done, cur, g);
  }

  /** The second byte of a two-byte piece is its argument. */
  lemma LastByte(buf: array<byte>, ep: nat, ep': nat, x: Piece)
    requires ep < ep' <= buf.Length && buf[ep..ep'] == ItemBytes(Item(x, false, []))
    ensures Size(x) == 2 ==> ep' == ep + 2 && buf[ep + 1] == Argument(x)
  {
    ItemBytesSize(x);
    assert Size(x) == 2 ==> buf[ep..ep'][1] == buf[ep + 1];
  }

  /** A new piece after the code so far. */
  method AppendPiece(src: Input, sp: nat, buf: array<byte>, ghost ep0: nat, ep: nat, endbuf: nat, ghost lastep: int,
                     bracket: array<Group>, bracketp: nat, nbra: nat, closed: nat,
                     ghost done: seq<Item>, ghost cur: Option<Item>, ghost g: Groups)
    returns (code: int, sp': nat, ep': nat, bracketp': nat, nbra': nat, closed': nat)
    requires CodeAt(buf, ep0, ep, lastep, done, cur) && GroupsAre(bracket, bracketp, nbra, closed, g)
    requires ep < endbuf <= buf.Length && src.room == endbuf - ep0 && sp < |src.p|
    requires endbuf == buf.Length ==> PieceFits(ReadPiece(src, sp, ep - ep0, g), ep, endbuf)
    modifies buf, bracket
    ensures Untouched(buf, ep, if code == 0 && ep' > endbuf then endbuf + 1 else endbuf)
    ensures match ReadPiece(src, sp, ep - ep0, g)
            case NoPiece(e) => code == e && code != 0
            case GotPiece(piece, next, g') =>
              && code == 0 && sp' == next && ep' == ep + Size(piece) <= endbuf + 1
              && (ep' > endbuf ==> SpillStored(buf, endbuf, Some(Argument(piece))))
              && GroupsAre(bracket, bracketp', nbra', closed', g')
              && CodeAt(buf, ep0, ep', ep, AllSoFar(done, cur), Some(Item(piece, false, [])))
  {
    hide ItemBytes, Encode, ReadPiece, GroupsAre;
    ghost var before := buf[ep0..ep];
    CodeSoFar(buf, ep0, ep, lastep, done, cur);
    code, sp', ep', bracketp', nbra', closed' :=
      CompilePiece(src, sp + 1, buf, ep, endbuf, bracket, bracketp, nbra, closed, ep - ep0, g);
    if code == 0 {
      ghost var piece := ReadPiece(src, sp, ep - ep0, g).piece;
      ItemBytesSize(piece);
      LastByte(buf, ep, ep', piece);
      assert buf[ep0..ep] == before;
    }
  }
}
