/** Subjects as the matcher sees them: NUL-terminated strings, byte tests and string comparison. */
module Subject {
  import opened Bytes
  import opened Program
  import opened Meaning

  /** A string whose only NUL is its last byte. */
  predicate CString(s: seq<byte>) {
    |s| > 0 && s[|s| - 1] == 0 && forall i | 0 <= i < |s| - 1 :: s[i] != 0
  }

  function Text(s: seq<byte>): seq<byte>
    requires |s| > 0
  {
    s[..|s| - 1]
  }

  // The byte tests as the three families of arms write them. `base` is the opcode without its flag and `ep`
  // the first operand byte.

  predicate PlainTest(base: byte, prog: seq<byte>, ep: nat, c: byte)
    requires AtomBase(base) && ep + OperandWidth(base) <= |prog|
  {
    if base == CCHR then prog[ep] == c
    else if base == CDOT then c != 0
    else if base == CXCL then IsThere(prog, ep, c)
    else (c < 128 && IsThere(prog, ep, c)) != (base == NCCL)
  }

  predicate StarTest(base: byte, prog: seq<byte>, ep: nat, c: byte)
    requires AtomBase(base) && ep + OperandWidth(base) <= |prog|
  {
    if base == CDOT then c != 0
    else if base == CCHR then c == prog[ep]
    else if base == CXCL then IsThere(prog, ep, c)
    else (c < 128 && IsThere(prog, ep, c)) != (base == NCCL)
  }

  /** The interval arms test for the byte that stops the scan. */
  predicate RangeStop(base: byte, prog: seq<byte>, ep: nat, c: byte)
    requires AtomBase(base) && ep + OperandWidth(base) <= |prog|
  {
    if base == CCHR then c != prog[ep]
    else if base == CDOT then c == 0
    else if base == CXCL then !IsThere(prog, ep, c)
    else (c >= 128 || !IsThere(prog, ep, c)) != (base == NCCL)
  }

  /** All three families accept exactly the bytes of the decoded atom. */
  lemma TestsAgree(base: byte, prog: seq<byte>, ep: nat, c: byte)
    requires AtomBase(base) && ep + OperandWidth(base) <= |prog|
    ensures PlainTest(base, prog, ep, c) <==> AtomAt(prog, base, ep).Accepts(c)
    ensures StarTest(base, prog, ep, c) <==> AtomAt(prog, base, ep).Accepts(c)
    ensures RangeStop(base, prog, ep, c) <==> !AtomAt(prog, base, ep).Accepts(c)
  {
  }

  /** At any position up to the terminator, the byte is accepted exactly when the text goes on with it. */
  lemma TestIsStretch(a: Atom, s: seq<byte>, lp: nat)
    requires CString(s) && lp < |s| && !a.Accepts(0)
    ensures a.Accepts(s[lp]) <==> Stretch(a, Text(s), lp, lp + 1)
    ensures a.Accepts(s[lp]) ==> lp + 1 < |s| && RunLength(a, Text(s), lp) == 1 + RunLength(a, Text(s), lp + 1)
    ensures !a.Accepts(s[lp]) ==> RunLength(a, Text(s), lp) == 0
  {
  }

  /** `strncmp(s + i, s + j, n) == 0`, which also stops at a NUL. */
  predicate Ecmp(s: seq<byte>, i: nat, j: nat, n: nat)
    requires CString(s) && i < |s| && j < |s|
    decreases n
  {
    n == 0 || (s[i] == s[j] && (s[i] == 0 || Ecmp(s, i + 1, j + 1, n - 1)))
  }

  lemma {:induction false} EcmpIsPrefix(s: seq<byte>, i: nat, j: nat, n: nat)
    requires CString(s) && i + n < |s| && j < |s|
    ensures Ecmp(s, i, j, n) <==> Text(s)[i..i + n] <= Text(s)[j..]
    decreases n
  {
    var t := Text(s);
    if n == 0 {
    } else {
      if j < |t| && s[i] == s[j] {
        EcmpIsPrefix(s, i + 1, j + 1, n - 1);
        assert t[i..i + n] == [t[i]] + t[i + 1..i + 1 + (n - 1)];
        assert t[j..] == [t[j]] + t[j + 1..];
      }
    }
  }

  /** One comparison with the capture at bbeg tells whether another copy follows. */
  method AnotherCopy(s: seq<byte>, bbeg: nat, ct: nat, lp: nat, ghost w: seq<byte>) returns (more: bool)
    requires CString(s) && 0 < ct == |w| && bbeg + ct < |s| && lp < |s| && w == Text(s)[bbeg..bbeg + ct]
    ensures more ==> lp + ct < |s|
    ensures CopyCount(w, Text(s), lp) == if more then 1 + CopyCount(w, Text(s), lp + ct) else 0
  {
    EcmpIsPrefix(s, bbeg, lp, ct);
    more := Ecmp(s, bbeg, lp, ct);
  }
}
