/** Which lists of pieces nest, said by counting parentheses instead of keeping a stack. */
module Nesting {
  import opened Program
  import opened Pattern
  import opened Grouping

  /** How many groups the first n items open, and how many they close. */
  function OpenedBefore(items: seq<Item>, n: nat): nat
    requires n <= |items|
  {
    if n == 0 then 0 else OpenedBefore(items, n - 1) + if items[n - 1].piece.OpenGroup? then 1 else 0
  }

  function ClosedBefore(items: seq<Item>, n: nat): nat
    requires n <= |items|
  {
    if n == 0 then 0 else ClosedBefore(items, n - 1) + if items[n - 1].piece.CloseGroup? then 1 else 0
  }

  function Depth(items: seq<Item>, n: nat): int
    requires n <= |items|
  {
    OpenedBefore(items, n) - ClosedBefore(items, n)
  }

  /** The depth is greater than at i from there up to k. */
  ghost predicate Inside(items: seq<Item>, i: nat, k: nat)
    requires k <= |items|
  {
    i < k && forall m | i < m <= k :: Depth(items, m) > Depth(items, i)
  }

  /** Item i opens group g, and a parenthesis at k closes it: all groups opened in between are closed by then. */
  ghost predicate OpensFor(items: seq<Item>, i: nat, k: nat, g: Group)
    requires k <= |items|
  {
    Inside(items, i, k) && items[i].piece == OpenGroup(g) && Depth(items, k) == Depth(items, i) + 1
  }

  /** Item k fits: groups are numbered as they are opened, closed innermost first, and referred to by count. */
  ghost predicate Fits(items: seq<Item>, k: nat)
    requires k < |items|
  {
    match items[k].piece
    case OpenGroup(g) => g == OpenedBefore(items, k)
    case CloseGroup(g) => exists i: nat :: OpensFor(items, i, k, g)
    case BackRef(g) => g < ClosedBefore(items, k)
    case _ => true
  }

  /** The stack after n items holds the groups that are open there, with the innermost last. */
  ghost predicate StackAt(items: seq<Item>, n: nat, g: Groups)
    requires n <= |items|
  {
    && g.nbra == OpenedBefore(items, n) && g.closed == ClosedBefore(items, n) && |g.stack| == Depth(items, n)
    && forall d | 0 <= d < |g.stack| :: OpenAtDepth(items, n, d, g.stack[d])
  }

  ghost predicate HoldsAtDepth(items: seq<Item>, n: nat, i: nat, d: int, g: Group)
    requires n <= |items|
  {
    Inside(items, i, n) && items[i].piece == OpenGroup(g) && Depth(items, i) == d
  }

  ghost predicate OpenAtDepth(items: seq<Item>, n: nat, d: int, g: Group)
    requires n <= |items|
  {
    exists i: nat :: HoldsAtDepth(items, n, i, d, g)
  }

  lemma {:induction false} AfterOneMore(items: seq<Item>, x: Item, g: Groups)
    ensures var r := AfterItems(items, g);
            AfterItems(items + [x], g) == if r.None? then None else AfterPiece(x.piece, r.value)
    decreases |items|
  {
    if items == [] {
      assert (items + [x])[1..] == [];
    } else {
      assert (items + [x])[1..] == items[1..] + [x];
      var g' := AfterPiece(items[0].piece, g);
      if g'.Some? {
        AfterOneMore(items[1..], x, g'.value);
      }
    }
  }

  /** The parenthesis that closes at n closes the group on top of the stack. */
  lemma CloseIsTop(items: seq<Item>, n: nat, g: Groups, k: Group)
    requires n <= |items| && StackAt(items, n, g) && forall i: nat | i <= n :: Depth(items, i) >= 0
    ensures (exists i: nat :: OpensFor(items, i, n, k)) <==> g.stack != [] && g.stack[|g.stack| - 1] == k
  {
    if g.stack != [] {
      var d := |g.stack| - 1;
      assert OpenAtDepth(items, n, d, g.stack[d]);
      var i0: nat :| HoldsAtDepth(items, n, i0, d, g.stack[d]);
      assert OpensFor(items, i0, n, g.stack[d]);
      forall i: nat | OpensFor(items, i, n, k)
        ensures i == i0
      {
      }
    }
  }

  lemma StackGrows(items: seq<Item>, n: nat, g: Groups, g': Groups)
    requires n < |items| && StackAt(items, n, g) && AfterPiece(items[n].piece, g) == Some(g')
    ensures StackAt(items, n + 1, g')
  {
    var n' := n + 1;
    assert OpenedBefore(items, n') == OpenedBefore(items, n) + if items[n].piece.OpenGroup? then 1 else 0;
    assert ClosedBefore(items, n') == ClosedBefore(items, n) + if items[n].piece.CloseGroup? then 1 else 0;
    assert |g'.stack| == Depth(items, n');
    forall d | 0 <= d < |g'.stack|
      ensures OpenAtDepth(items, n', d, g'.stack[d])
    {
      if d < |g.stack| {
        assert OpenAtDepth(items, n, d, g.stack[d]);
        var i: nat :| HoldsAtDepth(items, n, i, d, g.stack[d]);
        assert HoldsAtDepth(items, n', i, d, g'.stack[d]);
      } else {
        assert HoldsAtDepth(items, n', n, d, g'.stack[d]);
      }
    }
  }

  /** The stack machine accepts the first n items exactly if each of them fits, and its state is what counting gives. */
  lemma {:induction false} NestsUpTo(items: seq<Item>, n: nat)
    requires n <= |items|
    ensures AfterItems(items[..n], NO_GROUPS).Some? <==> forall k | 0 <= k < n :: Fits(items, k)
    ensures AfterItems(items[..n], NO_GROUPS).Some? ==>
              && StackAt(items, n, AfterItems(items[..n], NO_GROUPS).value)
              && forall i: nat | i <= n :: Depth(items, i) >= 0
    decreases n
  {
    if n == 0 {
      assert items[..0] == [];
    } else {
      var x := items[n - 1];
      NestsUpTo(items, n - 1);
      assert items[..n] == items[..n - 1] + [x];
      AfterOneMore(items[..n - 1], x, NO_GROUPS);
      var r := AfterItems(items[..n - 1], NO_GROUPS);
      if r.Some? {
        OneMoreFits(items, n - 1, r.value);
        if AfterPiece(x.piece, r.value).Some? {
          StackGrows(items, n - 1, r.value, AfterPiece(x.piece, r.value).value);
        }
      }
    }
  }

  lemma OneMoreFits(items: seq<Item>, n: nat, g: Groups)
    requires n < |items| && StackAt(items, n, g) && forall i: nat | i <= n :: Depth(items, i) >= 0
    ensures AfterPiece(items[n].piece, g).Some? <==> Fits(items, n)
  {
    if items[n].piece.CloseGroup? {
      CloseIsTop(items, n, g, items[n].piece.g);
    }
  }

  /**
   A list of items nests exactly if the groups are numbered in the order in which they are opened, each is closed
   after all groups inside it, and a back-reference is at most the number of groups closed before it. All groups
   are closed in the end exactly if as many are closed as opened.
   */
  lemma NestsExactly(items: seq<Item>)
    ensures AfterItems(items, NO_GROUPS).Some? <==> forall k | 0 <= k < |items| :: Fits(items, k)
    ensures AfterItems(items, NO_GROUPS).Some? ==>
              var g := AfterItems(items, NO_GROUPS).value;
              && g.nbra == OpenedBefore(items, |items|) && g.closed == ClosedBefore(items, |items|)
              && (g.stack == [] <==> OpenedBefore(items, |items|) == ClosedBefore(items, |items|))
  {
    NestsUpTo(items, |items|);
    assert items[..|items|] == items;
  }
}
