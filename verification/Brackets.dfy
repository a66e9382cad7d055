/** What a bracket expression denotes, read off its text without scanning it. */
module Brackets {
  import opened Bytes
  import opened Pattern
  import opened Emitter

  /** The first closing bracket after position j, where a bracket would be an ordinary byte. */
  predicate Closes(p: seq<byte>, j: nat, n: int) {
    j < n < |p| && p[n] == RBRACKET && forall k | j < k < n :: p[k] != RBRACKET
  }

  /**
   The hyphen at k makes a range: it is neither the first nor the last byte, nor the end of a range itself, and
   it does not follow a NUL, which can only be the end of a range.
   */
  predicate MakesRange(p: seq<byte>, j: nat, n: int, k: int)
    requires n <= |p|
    decreases k - j
  {
    j < k < n - 1 && p[k] == HYPHEN && p[k - 1] != 0 && !MakesRange(p, j, n, k - 1)
  }

  /** The byte at k contributes x. */
  predicate Gives(p: seq<byte>, j: nat, n: int, k: int, x: byte)
    requires j <= k < n <= |p|
  {
    if MakesRange(p, j, n, k) then p[k - 1] <= x <= p[k + 1] else p[k] == x
  }

  ghost predicate Denotes(p: seq<byte>, j: nat, n: int, from: int, x: byte)
    requires n <= |p|
  {
    exists k | j <= k < n && from <= k :: Gives(p, j, n, k, x)
  }

  /** A scan that succeeds ends at the first closing bracket it may end at. */
  lemma {:induction false} MembersClose(p: seq<byte>, i: nat, lc: byte, fits: bool)
    requires Members(p, i, lc, fits).GotSet?
    ensures Closes(p, i, Members(p, i, lc, fits).next - 1)
    decreases |p| - i
  {
    if p[i] == HYPHEN && lc != 0 {
      if p[i + 1] != RBRACKET && p[i + 2] != RBRACKET {
        MembersClose(p, i + 2, p[i + 1], fits);
      }
    } else if p[i + 1] != RBRACKET {
      MembersClose(p, i + 1, p[i], fits);
    }
  }

  lemma {:induction false} MembersFrom(p: seq<byte>, j: nat, n: int, i: nat, lc: byte, fits: bool, x: byte)
    requires Closes(p, j, n) && j <= i < n && !MakesRange(p, j, n, i - 1)
    requires lc == if i == j then 0 else p[i - 1]
    requires Members(p, i, lc, fits).GotSet?
    ensures x in Members(p, i, lc, fits).written <==> Denotes(p, j, n, i, x)
    decreases n - i
  {
    if p[i] == HYPHEN && lc != 0 {
      BetweenBounds(lc, p[i + 1]);
      if i + 1 < n {
        assert MakesRange(p, j, n, i) && !MakesRange(p, j, n, i + 1);
        if i + 2 < n {
          MembersFrom(p, j, n, i + 2, p[i + 1], fits, x);
        }
        assert Gives(p, j, n, i, x) <==> lc <= x <= p[i + 1];
        assert Gives(p, j, n, i + 1, x) <==> x == p[i + 1];
      } else {
        assert Gives(p, j, n, i, x) <==> x == HYPHEN;
      }
    } else {
      assert Gives(p, j, n, i, x) <==> x == p[i];
      if i + 1 < n {
        MembersFrom(p, j, n, i + 1, p[i], fits, x);
      }
    }
  }

  /**
   The bytes written in a bracket expression: those that stand for themselves, and for each range the bytes
   from its start to its end, none if they are reversed.
   */
  lemma BracketDenotes(p: seq<byte>, j: nat, fits: bool)
    requires Members(p, j, 0, fits).GotSet?
    ensures var r := Members(p, j, 0, fits);
            && Closes(p, j, r.next - 1)
            && forall x: byte :: x in r.written <==> Denotes(p, j, r.next - 1, j, x)
  {
    MembersClose(p, j, 0, fits);
    forall x: byte
      ensures x in Members(p, j, 0, fits).written <==> Denotes(p, j, Members(p, j, 0, fits).next - 1, j, x)
    {
      MembersFrom(p, j, Members(p, j, 0, fits).next - 1, j, 0, fits, x);
    }
  }

  /** The byte at k may stand there: NUL and newline only as the end of a range, 8-bit bytes only where they fit. */
  predicate Admitted(p: seq<byte>, j: nat, n: int, k: int, fits: bool)
    requires j <= k < n <= |p|
  {
    && (p[k] == 0 || p[k] == NEWLINE ==> MakesRange(p, j, n, k - 1))
    && (p[k] >= 128 ==> fits)
  }

  ghost predicate Clean(p: seq<byte>, j: nat, n: int, from: int, fits: bool)
    requires n <= |p|
  {
    forall k | j <= k < n && from <= k :: Admitted(p, j, n, k, fits)
  }

  lemma {:induction false} MembersAccepted(p: seq<byte>, j: nat, n: int, i: nat, lc: byte, fits: bool)
    requires Closes(p, j, n) && j <= i < n && !MakesRange(p, j, n, i - 1)
    requires lc == if i == j then 0 else p[i - 1]
    ensures Members(p, i, lc, fits).GotSet? <==> Clean(p, j, n, i, fits)
    ensures Members(p, i, lc, fits).GotSet? ==> Members(p, i, lc, fits).next == n + 1
    decreases n - i
  {
    assert Clean(p, j, n, i, fits) ==> Admitted(p, j, n, i, fits);
    if p[i] == HYPHEN && lc != 0 && i + 1 < n {
      assert MakesRange(p, j, n, i) && !MakesRange(p, j, n, i + 1);
      assert Clean(p, j, n, i, fits) ==> Admitted(p, j, n, i + 1, fits);
      if i + 2 < n {
        MembersAccepted(p, j, n, i + 2, p[i + 1], fits);
      }
    } else if i + 1 < n {
      MembersAccepted(p, j, n, i + 1, p[i], fits);
    }
  }

  /**
   Which texts are bracket expressions: those with a closing bracket after the first byte, such that every byte
   before it may stand where it stands. The scan then ends right after that bracket.
   */
  lemma BracketAccepted(p: seq<byte>, j: nat, fits: bool)
    ensures Members(p, j, 0, fits).GotSet? <==> exists n: int :: Closes(p, j, n) && Clean(p, j, n, j, fits)
    ensures forall n: int | Closes(p, j, n) && Clean(p, j, n, j, fits) ::
              Members(p, j, 0, fits).GotSet? && Members(p, j, 0, fits).next == n + 1
  {
    if Members(p, j, 0, fits).GotSet? {
      MembersClose(p, j, 0, fits);
      MembersAccepted(p, j, Members(p, j, 0, fits).next - 1, j, 0, fits);
    }
    forall n: int | Closes(p, j, n) && Clean(p, j, n, j, fits)
      ensures Members(p, j, 0, fits).GotSet? && Members(p, j, 0, fits).next == n + 1
    {
      MembersAccepted(p, j, n, j, 0, fits);
    }
  }
}
