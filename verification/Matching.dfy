/**
 What it means that a pattern matches, said of its items and the text alone: the text can be cut into one segment for
 each item such that every item may take its segment.
 */
module Matching {
  import opened Bytes
  import opened Program
  import opened Meaning
  import opened Captures
  import opened Leftmost
  import opened Pattern
  import opened Compilation

  // ---------- Segments ----------

  /** The one-character piece x takes the byte c. */
  ghost predicate TakesByte(x: Piece, c: byte)
    requires OneChar(x)
  {
    match x
    case Char(d) => c == d
    case Dot => c != 0
    case Bracket(kind, bits) =>
      if kind.Narrow? then c < 128 && c in bits
      else if kind.Negated? then c >= 128 || c !in bits
      else c in bits
  }

  /** How many bytes the one-character item x may take. An interval with an open end stops after 20000 more. */
  predicate MayTake(x: Item, n: nat) {
    if x.bounds == [] then x.starred || n == 1
    else
      var (lo, hi) := x.bounds[0];
      lo <= n <= if hi == 255 then lo + 20000 else hi
  }

  /** s is a number of copies of w, none at all included. */
  predicate Copies(w: seq<byte>, s: seq<byte>)
    decreases |s|
  {
    s == [] || (w != [] && w <= s && Copies(w, s[|w|..]))
  }

  /** Group g is opened by item i and closed by item j. */
  predicate Encloses(items: seq<Item>, g: Group, i: nat, j: nat) {
    i < j < |items| && items[i].piece == OpenGroup(g) && items[j].piece == CloseGroup(g)
  }

  /**
   Item k takes the text from q[k] to q[k + 1]. A back-reference takes what stands between the parentheses of its
   group, or copies of that; the end-of-line anchor takes nothing and stands at the end of the text.
   */
  ghost predicate Takes(items: seq<Item>, t: seq<byte>, q: seq<nat>, k: nat)
    requires k < |items| && k + 1 < |q|
  {
    var x, from, to := items[k], q[k], q[k + 1];
    && from <= to <= |t|
    && match x.piece
       case OpenGroup(_) => to == from
       case CloseGroup(_) => to == from
       case EndOfLine => to == from == |t|
       case BackRef(g) =>
         exists i: nat, j: nat | Encloses(items, g, i, j) && j < k && q[i] <= q[j] <= |t| ::
           if x.starred then Copies(t[q[i]..q[j]], t[from..to]) else t[from..to] == t[q[i]..q[j]]
       case _ =>
         MayTake(x, to - from) && forall i | from <= i < to :: TakesByte(x.piece, t[i])
  }

  /** The cut points q divide the text from q[0] on between the items. */
  ghost predicate Cuts(items: seq<Item>, t: seq<byte>, q: seq<nat>) {
    |q| == |items| + 1 && q[0] <= |t| && forall k | 0 <= k < |items| :: Takes(items, t, q, k)
  }

  /** The marks hold the cut points at the parentheses. */
  ghost predicate MarksAre(items: seq<Item>, q: seq<nat>, n: nat, env: Env)
    requires n <= |items| && n <= |q|
  {
    && (forall k | 0 <= k < n && items[k].piece.OpenGroup? :: env.starts[items[k].piece.g] == q[k])
    && (forall k | 0 <= k < n && items[k].piece.CloseGroup? :: env.ends[items[k].piece.g] == q[k])
  }

  // ---------- One item ----------

  /** A class takes exactly the bytes that its bracket expression says. */
  lemma ClassTakes(negated: bool, written: set<byte>, c: byte)
    ensures TakesByte(BracketPiece(negated, written), c) <==>
            if negated then c != 0 && c !in written else c in written
  {
  }

  lemma TakesByteIsAccepts(x: Piece, c: byte)
    requires OneChar(x)
    ensures TakesByte(x, c) <==> AtomOf(x).Accepts(c)
  {
  }

  lemma {:induction false} RepeatsAreCopies(w: seq<byte>, k: nat)
    ensures Copies(w, Repeat(w, k))
  {
    if k == 0 {
    } else {
      RepeatsAreCopies(w, k - 1);
      if w == [] {
        assert Repeat(w, k) == Repeat(w, k - 1);
        assert Repeat(w, k - 1) == [] by { EmptyRepeat(w, k - 1); }
      } else {
        assert Repeat(w, k)[|w|..] == Repeat(w, k - 1);
      }
    }
  }

  lemma {:induction false} EmptyRepeat(w: seq<byte>, k: nat)
    requires w == []
    ensures Repeat(w, k) == []
  {
    if k == 0 {
    } else {
      EmptyRepeat(w, k - 1);
    }
  }

  lemma {:induction false} CopiesAreRepeats(w: seq<byte>, s: seq<byte>) returns (k: nat)
    requires Copies(w, s)
    ensures Repeat(w, k) == s
    decreases |s|
  {
    if s == [] {
      k := 0;
    } else {
      k := CopiesAreRepeats(w, s[|w|..]);
      k := k + 1;
      assert s == w + s[|w|..];
    }
  }

  /** The item k stands where its text can be cut: what it refers to was taken before. */
  ghost predicate Placed(items: seq<Item>, t: seq<byte>, q: seq<nat>, k: nat, env: Env) {
    && k < |items| && k < |q| && Supported(items) && q[k] <= |t| && MarksAre(items, q, k, env)
    && (forall i | 0 <= i <= k :: q[i] <= q[k])
    && (items[k].piece.BackRef? ==>
          exists i: nat, j: nat :: Encloses(items, items[k].piece.g, i, j) && j < k && q[i] <= q[j] <= |t|)
  }

  lemma CaptureIsSegment(items: seq<Item>, t: seq<byte>, q: seq<nat>, k: nat, env: Env, i: nat, j: nat)
    requires Placed(items, t, q, k, env) && items[k].piece.BackRef?
    requires Encloses(items, items[k].piece.g, i, j) && j < k && q[i] <= q[j] <= |t|
    ensures Captured(t, env, items[k].piece.g) == t[q[i]..q[j]]
  {
  }

  lemma StretchIsTaken(x: Piece, t: seq<byte>, from: nat, to: nat)
    requires OneChar(x)
    ensures Stretch(AtomOf(x), t, from, to) <==> from <= to <= |t| && forall i | from <= i < to :: TakesByte(x, t[i])
  {
    forall i | 0 <= i < |t|
      ensures TakesByte(x, t[i]) <==> AtomOf(x).Accepts(t[i])
    {
      TakesByteIsAccepts(x, t[i]);
    }
  }

  /** The count with which a one-character item takes n bytes. */
  function CountFor(x: Item, n: nat): int {
    if x.bounds != [] then n - x.bounds[0].0 else if x.starred then n else 0
  }

  /** A one-character item may take n bytes exactly if its element can, with the count for n. */
  lemma CharStep(x: Item, t: seq<byte>, from: nat, env: Env, to: nat)
    requires SupportedItem(x) && OneChar(x.piece) && from <= |t|
    ensures from <= to <= |t| && MayTake(x, to - from) && (forall i | from <= i < to :: TakesByte(x.piece, t[i])) <==>
            && from <= to && CountFor(x, to - from) >= 0
            && Consume(ElemOf(x), CountFor(x, to - from), t, from, env, -1) == Some(Landing(to, env))
  {
    StretchIsTaken(x.piece, t, from, to);
  }

  /** Another count takes the one-character item elsewhere. */
  lemma CharEnd(x: Item, t: seq<byte>, from: nat, env: Env, c: nat)
    requires SupportedItem(x) && OneChar(x.piece) && from <= |t|
    requires Consume(ElemOf(x), c, t, from, env, -1).Some? && (!Repeats(ElemOf(x)) ==> c == 0)
    ensures var l := Consume(ElemOf(x), c, t, from, env, -1).value; l.env == env && CountFor(x, l.end - from) == c
  {
  }

  lemma PrefixIsSlice(t: seq<byte>, from: nat, to: nat, w: seq<byte>)
    requires from <= |t|
    ensures from <= to <= |t| && t[from..to] == w <==> w <= t[from..] && to == from + |w|
  {
    if w <= t[from..] && to == from + |w| {
      assert t[from..][..|w|] == w;
    }
    if from <= to <= |t| && t[from..to] == w {
      assert t[from..][..|w|] == t[from..to];
    }
  }

  lemma BackStep(items: seq<Item>, t: seq<byte>, q: seq<nat>, k: nat, env: Env)
    requires Placed(items, t, q, k, env) && k + 1 < |q| && items[k].piece.BackRef? && !items[k].starred
    ensures Takes(items, t, q, k) <==>
            Consume(ElemOf(items[k]), 0, t, q[k], env, -1) == Some(Landing(q[k + 1], env))
  {
    var g := items[k].piece.g;
    var i: nat, j: nat :| Encloses(items, g, i, j) && j < k && q[i] <= q[j] <= |t|;
    CaptureIsSegment(items, t, q, k, env, i, j);
    PrefixIsSlice(t, q[k], q[k + 1], Captured(t, env, g));
    if Takes(items, t, q, k) {
      var i': nat, j': nat :| Encloses(items, g, i', j') && j' < k && q[i'] <= q[j'] <= |t| &&
                              t[q[k]..q[k + 1]] == t[q[i']..q[j']];
      CaptureIsSegment(items, t, q, k, env, i', j');
    }
  }

  lemma BackManyTakes(items: seq<Item>, t: seq<byte>, q: seq<nat>, k: nat, env: Env)
    requires Placed(items, t, q, k, env) && k + 1 < |q| && items[k].piece.BackRef? && items[k].starred
    ensures Takes(items, t, q, k) <==>
            q[k] <= q[k + 1] <= |t| && Copies(Captured(t, env, items[k].piece.g), t[q[k]..q[k + 1]])
  {
    var g := items[k].piece.g;
    var i: nat, j: nat :| Encloses(items, g, i, j) && j < k && q[i] <= q[j] <= |t|;
    CaptureIsSegment(items, t, q, k, env, i, j);
    if Takes(items, t, q, k) {
      var i': nat, j': nat :| Encloses(items, g, i', j') && j' < k && q[i'] <= q[j'] <= |t| &&
                              Copies(t[q[i']..q[j']], t[q[k]..q[k + 1]]);
      CaptureIsSegment(items, t, q, k, env, i', j');
    }
  }

  /** The element of item k, with count c, goes from q[k] to q[k + 1]. */
  ghost predicate Moves(items: seq<Item>, t: seq<byte>, q: seq<nat>, k: nat, env: Env, c: nat)
    requires k < |items| && k + 1 < |q| && q[k] <= |t| && Supported(items)
  {
    var l := Consume(ElemOf(items[k]), c, t, q[k], env, -1);
    l.Some? && l.value.end == q[k + 1] && (!Repeats(ElemOf(items[k])) ==> c == 0)
  }

  /** What an element does in the search, its item may do in the text. */
  lemma StepSound(items: seq<Item>, t: seq<byte>, q: seq<nat>, k: nat, env: Env, c: nat)
    requires Placed(items, t, q, k, env) && k + 1 < |q| && Moves(items, t, q, k, env, c)
    ensures Takes(items, t, q, k)
  {
    var x := items[k];
    if OneChar(x.piece) {
      CharEnd(x, t, q[k], env, c);
      CharStep(x, t, q[k], env, q[k + 1]);
    } else if x.piece.BackRef? && x.starred {
      var w := Captured(t, env, x.piece.g);
      RepeatsAreCopies(w, c);
      PrefixIsSlice(t, q[k], q[k + 1], Repeat(w, c));
      BackManyTakes(items, t, q, k, env);
    } else if x.piece.BackRef? {
      BackStep(items, t, q, k, env);
    }
  }

  /** What an item may do in the text, its element can do in the search. */
  lemma StepComplete(items: seq<Item>, t: seq<byte>, q: seq<nat>, k: nat, env: Env) returns (c: nat)
    requires Placed(items, t, q, k, env) && k + 1 < |q| && Takes(items, t, q, k)
    ensures Moves(items, t, q, k, env, c)
  {
    var x := items[k];
    c := 0;
    if OneChar(x.piece) {
      CharStep(x, t, q[k], env, q[k + 1]);
      c := CountFor(x, q[k + 1] - q[k]);
    } else if x.piece.BackRef? && x.starred {
      var w := Captured(t, env, x.piece.g);
      BackManyTakes(items, t, q, k, env);
      c := CopiesAreRepeats(w, t[q[k]..q[k + 1]]);
      PrefixIsSlice(t, q[k], q[k + 1], Repeat(w, c));
    } else if x.piece.BackRef? {
      BackStep(items, t, q, k, env);
    }
  }

  // ---------- Groups ----------

  /** No group is opened or closed twice, and a back-reference comes after the group it names. */
  ghost predicate WellGrouped(items: seq<Item>) {
    forall k | 0 <= k < |items| ::
      && (Paren(items[k]) ==> forall j | 0 <= j < k :: items[j].piece != items[k].piece)
      && (items[k].piece.BackRef? ==> exists i: nat, j: nat :: Encloses(items, items[k].piece.g, i, j) && j < k)
  }

  ghost function Opened(items: seq<Item>, k: nat): set<Group>
    requires k <= |items|
  {
    set g: Group | exists j :: 0 <= j < k && items[j].piece == OpenGroup(g)
  }

  ghost function Shut(items: seq<Item>, k: nat): set<Group>
    requires k <= |items|
  {
    set g: Group | exists j :: 0 <= j < k && items[j].piece == CloseGroup(g)
  }

  lemma GroupsStep(items: seq<Item>, k: nat)
    requires Supported(items) && k < |items|
    ensures Opened(items, k + 1) == BegunAfter(ElemOf(items[k]), Opened(items, k))
    ensures Shut(items, k + 1) == EndedAfter(ElemOf(items[k]), Shut(items, k))
  {
    var x := items[k].piece;
    forall g: Group
      ensures g in Opened(items, k + 1) <==> g in Opened(items, k) || x == OpenGroup(g)
      ensures g in Shut(items, k + 1) <==> g in Shut(items, k) || x == CloseGroup(g)
    {
      assert items[k].piece == x;
    }
  }

  lemma ElemsFrom(items: seq<Item>, k: nat)
    requires Supported(items) && k < |items|
    ensures Supported(items[k..]) && Supported(items[k + 1..])
    ensures Elems(items[k..]) == [ElemOf(items[k])] + Elems(items[k + 1..])
  {
    assert items[k..][1..] == items[k + 1..];
  }

  lemma {:induction false} WellFormedFrom(items: seq<Item>, k: nat)
    requires Supported(items) && WellFormed(Elems(items), {}, {}) && k <= |items|
    ensures Supported(items[k..]) && WellFormed(Elems(items[k..]), Opened(items, k), Shut(items, k))
    decreases k
  {
    if k == 0 {
      assert items[0..] == items && Opened(items, 0) == {} && Shut(items, 0) == {};
    } else {
      WellFormedFrom(items, k - 1);
      ElemsFrom(items, k - 1);
      GroupsStep(items, k - 1);
      assert Elems(items[k - 1..])[1..] == Elems(items[k..]);
    }
  }

  /** The groups of a well-formed program are in order. */
  lemma WellFormedIsGrouped(items: seq<Item>)
    requires Supported(items) && WellFormed(Elems(items), {}, {})
    ensures WellGrouped(items)
  {
    forall k | 0 <= k < |items|
      ensures Paren(items[k]) ==> forall j | 0 <= j < k :: items[j].piece != items[k].piece
      ensures items[k].piece.BackRef? ==> exists i: nat, j: nat :: Encloses(items, items[k].piece.g, i, j) && j < k
    {
      WellFormedFrom(items, k);
      ElemsFrom(items, k);
      if items[k].piece.BackRef? {
        var g := items[k].piece.g;
        var j: nat :| j < k && items[j].piece == CloseGroup(g);
        WellFormedFrom(items, j);
        ElemsFrom(items, j);
        var i: nat :| i < j && items[i].piece == OpenGroup(g);
        assert Encloses(items, g, i, j);
      }
    }
  }

  // ---------- Runs and cut points ----------

  ghost function HeadCount(items: seq<Item>, k: nat, ks: seq<nat>): nat
    requires Supported(items) && k < |items| && (Repeats(ElemOf(items[k])) ==> ks != [])
  {
    if Repeats(ElemOf(items[k])) then ks[0] else 0
  }

  ghost function TailCounts(items: seq<Item>, k: nat, ks: seq<nat>): seq<nat>
    requires Supported(items) && k < |items| && (Repeats(ElemOf(items[k])) ==> ks != [])
  {
    if Repeats(ElemOf(items[k])) then ks[1..] else ks
  }

  /** The run of the items from k on with the counts ks passes through the cut points. */
  ghost predicate Follows(items: seq<Item>, t: seq<byte>, q: seq<nat>, k: nat, ks: seq<nat>, env: Env)
    requires Supported(items) && |q| == |items| + 1 && k <= |items|
    decreases |items| - k
  {
    if k == |items| then ks == []
    else
      && q[k] <= |t| && (Repeats(ElemOf(items[k])) ==> ks != [])
      && Moves(items, t, q, k, env, HeadCount(items, k, ks))
      && var l := Consume(ElemOf(items[k]), HeadCount(items, k, ks), t, q[k], env, -1).value;
         Follows(items, t, q, k + 1, TailCounts(items, k, ks), l.env)
  }

  lemma {:induction false} CutsGrow(items: seq<Item>, t: seq<byte>, q: seq<nat>, i: nat, k: nat)
    requires i <= k < |q| && k <= |items| && q[0] <= |t| && forall j | 0 <= j < k :: Takes(items, t, q, j)
    ensures q[i] <= q[k] <= |t|
    decreases k
  {
    if k == 0 {
    } else {
      assert Takes(items, t, q, k - 1);
      CutsGrow(items, t, q, if i < k then i else k - 1, k - 1);
    }
  }

  /** After some items have taken their segments, the next one is placed. */
  lemma NextIsPlaced(items: seq<Item>, t: seq<byte>, q: seq<nat>, k: nat, env: Env)
    requires Supported(items) && WellGrouped(items) && k < |items| && k < |q| && q[0] <= |t|
    requires (forall j | 0 <= j < k :: Takes(items, t, q, j)) && MarksAre(items, q, k, env)
    ensures Placed(items, t, q, k, env)
  {
    CutsGrow(items, t, q, k, k);
    forall i | 0 <= i <= k
      ensures q[i] <= q[k]
    {
      CutsGrow(items, t, q, i, k);
    }
    if items[k].piece.BackRef? {
      var i: nat, j: nat :| Encloses(items, items[k].piece.g, i, j) && j < k;
      CutsGrow(items, t, q, i, j);
    }
  }

  lemma ConsumeMarks(e: Elem, c: nat, t: seq<byte>, pos: nat, env: Env)
    requires pos <= |t| && Consume(e, c, t, pos, env, -1).Some?
    ensures Consume(e, c, t, pos, env, -1).value.env ==
            if e.Open? then env.(starts := env.starts[e.g := pos])
            else if e.Close? then env.(ends := env.ends[e.g := pos]) else env
    ensures e.Open? || e.Close? ==> Consume(e, c, t, pos, env, -1).value.end == pos
  {
  }

  lemma MarksStep(items: seq<Item>, t: seq<byte>, q: seq<nat>, k: nat, env: Env, c: nat)
    requires Placed(items, t, q, k, env) && WellGrouped(items) && k + 1 < |q| && Moves(items, t, q, k, env, c)
    ensures MarksAre(items, q, k + 1, Consume(ElemOf(items[k]), c, t, q[k], env, -1).value.env)
  {
    var x, env' := items[k], Consume(ElemOf(items[k]), c, t, q[k], env, -1).value.env;
    ConsumeMarks(ElemOf(x), c, t, q[k], env);
    hide Consume;
    forall j | 0 <= j < k
      ensures items[j].piece.OpenGroup? ==> env'.starts[items[j].piece.g] == q[j]
      ensures items[j].piece.CloseGroup? ==> env'.ends[items[j].piece.g] == q[j]
    {
      assert Paren(x) ==> items[j].piece != x.piece;
    }
  }

  lemma RunStep(items: seq<Item>, k: nat, ks: seq<nat>, t: seq<byte>, pos: nat, env: Env)
    requires Supported(items) && k < |items| && pos <= |t| && Supported(items[k..]) && Supported(items[k + 1..])
    ensures var r := Run(Elems(items[k..]), ks, t, pos, env, -1);
            if Repeats(ElemOf(items[k])) && ks == [] then r.None?
            else
              var l := Consume(ElemOf(items[k]), HeadCount(items, k, ks), t, pos, env, -1);
              if l.None? then r.None?
              else r == Run(Elems(items[k + 1..]), TailCounts(items, k, ks), t, l.value.end, l.value.env, -1)
  {
    ElemsFrom(items, k);
    assert Elems(items[k..])[1..] == Elems(items[k + 1..]);
  }

  /** Cut points are passed by a run. */
  lemma {:induction false} CutsFollow(items: seq<Item>, t: seq<byte>, q: seq<nat>, k: nat, env: Env)
    returns (ks: seq<nat>)
    requires Supported(items) && WellGrouped(items) && Cuts(items, t, q) && k <= |items| && MarksAre(items, q, k, env)
    ensures Follows(items, t, q, k, ks, env)
    decreases |items| - k
  {
    if k == |items| {
      ks := [];
    } else {
      NextIsPlaced(items, t, q, k, env);
      var c := StepComplete(items, t, q, k, env);
      MarksStep(items, t, q, k, env, c);
      var l := Consume(ElemOf(items[k]), c, t, q[k], env, -1).value;
      var tail := CutsFollow(items, t, q, k + 1, l.env);
      ks := if Repeats(ElemOf(items[k])) then [c] + tail else tail;
      assert TailCounts(items, k, ks) == tail;
    }
  }

  /** A run that passes through the cut points ends at the last of them, with the marks at the parentheses. */
  lemma {:induction false} FollowsRuns(items: seq<Item>, t: seq<byte>, q: seq<nat>, k: nat, ks: seq<nat>, env: Env)
    requires Supported(items) && WellGrouped(items) && Cuts(items, t, q) && k <= |items| && MarksAre(items, q, k, env)
    requires Follows(items, t, q, k, ks, env) && Supported(items[k..])
    ensures q[k] <= |t|
    ensures var r := Run(Elems(items[k..]), ks, t, q[k], env, -1);
            r.Some? && r.value.end == q[|items|] && MarksAre(items, q, |items|, r.value.env)
    decreases |items| - k
  {
    CutsGrow(items, t, q, 0, k);
    if k == |items| {
      assert items[k..] == [];
    } else {
      var c := HeadCount(items, k, ks);
      NextIsPlaced(items, t, q, k, env);
      MarksStep(items, t, q, k, env, c);
      ElemsFrom(items, k);
      RunStep(items, k, ks, t, q[k], env);
      var l := Consume(ElemOf(items[k]), c, t, q[k], env, -1).value;
      FollowsRuns(items, t, q, k + 1, TailCounts(items, k, ks), l.env);
    }
  }

  lemma TakesPrefix(items: seq<Item>, t: seq<byte>, q: seq<nat>, q': seq<nat>, k: nat)
    requires k < |items| && k + 1 < |q| && k + 1 < |q'| && q[..k + 2] == q'[..k + 2] && Takes(items, t, q, k)
    ensures Takes(items, t, q', k)
  {
    assert forall i | 0 <= i < k + 2 :: q[i] == q[..k + 2][i] == q'[i];
  }

  /** Cut points for the first k items. */
  ghost predicate CutsUpTo(items: seq<Item>, t: seq<byte>, q: seq<nat>, k: nat, env: Env) {
    && k <= |items| && |q| == k + 1 && q[0] <= |t| && MarksAre(items, q, k, env)
    && forall j | 0 <= j < k :: Takes(items, t, q, j)
  }

  lemma CutsExtend(items: seq<Item>, t: seq<byte>, q: seq<nat>, k: nat, env: Env, c: nat, l: Landing)
    requires Supported(items) && WellGrouped(items) && k < |items| && CutsUpTo(items, t, q, k, env) && q[k] <= |t|
    requires Consume(ElemOf(items[k]), c, t, q[k], env, -1) == Some(l) && (!Repeats(ElemOf(items[k])) ==> c == 0)
    ensures CutsUpTo(items, t, q + [l.end], k + 1, l.env) && l.end <= |t|
  {
    hide Consume;
    var q1 := q + [l.end];
    forall j | 0 <= j < k
      ensures Takes(items, t, q1, j)
    {
      assert q[..j + 2] == q1[..j + 2];
      TakesPrefix(items, t, q, q1, j);
    }
    hide Takes;
    NextIsPlaced(items, t, q1, k, env);
    StepSound(items, t, q1, k, env, c);
    MarksStep(items, t, q1, k, env, c);
  }

  /** A run divides the text. */
  lemma {:induction false} RunCuts(items: seq<Item>, t: seq<byte>, q0: seq<nat>, k: nat, ks: seq<nat>, env: Env)
    returns (q: seq<nat>)
    requires Supported(items) && WellGrouped(items) && CutsUpTo(items, t, q0, k, env) && q0[k] <= |t|
    requires Supported(items[k..]) && Run(Elems(items[k..]), ks, t, q0[k], env, -1).Some?
    ensures Cuts(items, t, q) && q[..k + 1] == q0 && Follows(items, t, q, k, ks, env)
    decreases |items| - k
  {
    hide Consume, Takes, MarksAre, Run, Elems;
    if k == |items| {
      q := q0;
      EmptyRun(items[k..], ks, t, q0[k], env);
    } else {
      ElemsFrom(items, k);
      RunStep(items, k, ks, t, q0[k], env);
      var c := HeadCount(items, k, ks);
      var l := Consume(ElemOf(items[k]), c, t, q0[k], env, -1).value;
      CutsExtend(items, t, q0, k, env, c, l);
      q := RunCuts(items, t, q0 + [l.end], k + 1, TailCounts(items, k, ks), l.env);
      assert q[..k + 1] == q[..k + 2][..k + 1] == q0;
      assert q[k] == q[..k + 1][k] && q[k + 1] == q[..k + 2][k + 1];
    }
  }

  lemma EmptyRun(items: seq<Item>, ks: seq<nat>, t: seq<byte>, pos: nat, env: Env)
    requires items == [] && Supported(items) && pos <= |t| && Run(Elems(items), ks, t, pos, env, -1).Some?
    ensures ks == []
  {
  }

  lemma RunOfCuts(items: seq<Item>, t: seq<byte>, q: seq<nat>, env: Env) returns (ks: seq<nat>)
    requires Supported(items) && WellFormed(Elems(items), {}, {}) && Cuts(items, t, q)
    ensures var r := Run(Elems(items), ks, t, q[0], env, -1); r.Some? && r.value.end == q[|items|]
  {
    hide Run, Takes, Follows;
    WellFormedIsGrouped(items);
    assert items[0..] == items;
    ks := CutsFollow(items, t, q, 0, env);
    FollowsRuns(items, t, q, 0, ks, env);
  }

  lemma CutsOfRun(items: seq<Item>, t: seq<byte>, i: nat, ks: seq<nat>, env: Env) returns (q: seq<nat>)
    requires Supported(items) && WellFormed(Elems(items), {}, {}) && i <= |t|
    requires Run(Elems(items), ks, t, i, env, -1).Some?
    ensures Cuts(items, t, q) && q[0] == i && q[|items|] == Run(Elems(items), ks, t, i, env, -1).value.end
    ensures MarksAre(items, q, |items|, Run(Elems(items), ks, t, i, env, -1).value.env)
    ensures WellGrouped(items) && Follows(items, t, q, 0, ks, env)
  {
    hide Run, Takes, Follows;
    WellFormedIsGrouped(items);
    assert items[0..] == items;
    q := RunCuts(items, t, [i], 0, ks, env);
    assert q[0] == q[..1][0];
    FollowsRuns(items, t, q, 0, ks, env);
  }

  /** Some choice of counts takes the program from i to e. */
  ghost predicate RunsTo(es: seq<Elem>, t: seq<byte>, i: nat, e: nat, env: Env)
    requires i <= |t|
  {
    exists ks :: Run(es, ks, t, i, env, -1).Some? && Run(es, ks, t, i, env, -1).value.end == e
  }

  /** The pattern can match from i to e, as its items and the text say, exactly if its program can. */
  lemma MatchExactly(items: seq<Item>, t: seq<byte>, i: nat, e: nat, env: Env)
    requires Supported(items) && WellFormed(Elems(items), {}, {}) && i <= |t|
    ensures (exists q :: Cuts(items, t, q) && q[0] == i && q[|items|] == e) <==> RunsTo(Elems(items), t, i, e, env)
  {
    hide Run, Takes;
    if q :| Cuts(items, t, q) && q[0] == i && q[|items|] == e {
      var ks := RunOfCuts(items, t, q, env);
    }
    if ks :| Run(Elems(items), ks, t, i, env, -1).Some? && Run(Elems(items), ks, t, i, env, -1).value.end == e {
      var q := CutsOfRun(items, t, i, ks, env);
    }
  }

  // ---------- The greatest cut points ----------

  /** Where the cut points first differ, those of q' come earlier. */
  ghost predicate NoLonger(q': seq<nat>, q: seq<nat>) {
    q' == q || exists k | 0 <= k < |q| && k < |q'| :: q'[..k] == q[..k] && q'[k] < q[k]
  }

  lemma {:induction false} RepeatGrows(w: seq<byte>, c: nat, c': nat)
    requires w != [] && c' < c
    ensures |Repeat(w, c')| < |Repeat(w, c)|
    decreases c
  {
    if c' == c - 1 {
    } else {
      RepeatGrows(w, c - 1, c');
    }
  }

  lemma FewerEndEarlier(e: Elem, c: nat, c': nat, t: seq<byte>, pos: nat, env: Env)
    requires pos <= |t| && Repeats(e) && c' < c && (e.BackMany? ==> Captured(t, env, e.g) != [])
    requires Consume(e, c, t, pos, env, -1).Some? && Consume(e, c', t, pos, env, -1).Some?
    ensures Consume(e, c', t, pos, env, -1).value.end < Consume(e, c, t, pos, env, -1).value.end
  {
    if e.BackMany? {
      RepeatGrows(Captured(t, env, e.g), c, c');
    }
  }

  /** No choice of counts for the items from k on is greater. */
  ghost predicate Greatest(items: seq<Item>, t: seq<byte>, k: nat, pos: nat, ks: seq<nat>, env: Env)
    requires k <= |items| && Supported(items[k..]) && pos <= |t|
  {
    forall ks' | Run(Elems(items[k..]), ks', t, pos, env, -1).Some? :: LexLe(ks', ks)
  }

  /** A greatest choice of counts passes no starred back-reference with an empty capture, and stays greatest. */
  lemma GreatestStep(items: seq<Item>, t: seq<byte>, k: nat, pos: nat, ks: seq<nat>, env: Env)
    requires Supported(items) && k < |items| && Supported(items[k..]) && Supported(items[k + 1..]) && pos <= |t|
    requires Greatest(items, t, k, pos, ks, env) && Run(Elems(items[k..]), ks, t, pos, env, -1).Some?
    ensures var e := ElemOf(items[k]);
            && (Repeats(e) ==> ks != [])
            && var l := Consume(e, HeadCount(items, k, ks), t, pos, env, -1);
               && l.Some? && (e.BackMany? ==> Captured(t, env, e.g) != [])
               && Greatest(items, t, k + 1, l.value.end, TailCounts(items, k, ks), l.value.env)
  {
    hide Run, Elems;
    var e := ElemOf(items[k]);
    RunStep(items, k, ks, t, pos, env);
    var c, tail := HeadCount(items, k, ks), TailCounts(items, k, ks);
    var l := Consume(e, c, t, pos, env, -1).value;
    if e.BackMany? && Captured(t, env, e.g) == [] {
      var more := [c + 1] + tail;
      EmptyRepeat(Captured(t, env, e.g), c);
      EmptyRepeat(Captured(t, env, e.g), c + 1);
      RunStep(items, k, more, t, pos, env);
      assert false;
    }
    forall ks' | Run(Elems(items[k + 1..]), ks', t, l.end, l.env, -1).Some?
      ensures LexLe(ks', tail)
    {
      var all := if Repeats(e) then [c] + ks' else ks';
      RunStep(items, k, all, t, pos, env);
      assert TailCounts(items, k, all) == ks';
      assert LexLe(all, ks);
    }
  }

  lemma MarksPrefix(items: seq<Item>, q: seq<nat>, q': seq<nat>, k: nat, env: Env)
    requires k <= |items| && k < |q| && k < |q'| && q[..k + 1] == q'[..k + 1] && MarksAre(items, q, k, env)
    ensures MarksAre(items, q', k, env) && q[k] == q'[k]
  {
    assert forall i | 0 <= i < k + 1 :: q[i] == q[..k + 1][i] == q'[i];
  }

  lemma SamePrefix(q: seq<nat>, q': seq<nat>, k: nat)
    requires k + 1 < |q| && k + 1 < |q'| && q[..k + 1] == q'[..k + 1] && q[k + 1] == q'[k + 1]
    ensures q[..k + 2] == q'[..k + 2]
  {
    assert q[..k + 2] == q[..k + 1] + [q[k + 1]] && q'[..k + 2] == q'[..k + 1] + [q'[k + 1]];
  }

  /** Cut points that a greatest choice of counts passes through come no earlier than any others. */
  lemma {:induction false} GreatestCuts(items: seq<Item>, t: seq<byte>, q: seq<nat>, q': seq<nat>, k: nat,
                                        ks: seq<nat>, env: Env)
    requires Supported(items) && WellGrouped(items) && Cuts(items, t, q) && Cuts(items, t, q') && k <= |items|
    requires q[..k + 1] == q'[..k + 1] && MarksAre(items, q, k, env) && Follows(items, t, q, k, ks, env)
    requires Supported(items[k..]) && q[k] <= |t| && Greatest(items, t, k, q[k], ks, env)
    ensures NoLonger(q', q)
    decreases |items| - k
  {
    hide Consume, Takes, Run, Elems, Placed;
    if k == |items| {
      assert q[..k + 1] == q && q'[..k + 1] == q';
    } else {
      var e := ElemOf(items[k]);
      ElemsFrom(items, k);
      FollowsRuns(items, t, q, k, ks, env);
      GreatestStep(items, t, k, q[k], ks, env);
      MarksPrefix(items, q, q', k, env);
      var ks' := CutsFollow(items, t, q', k, env);
      FollowsRuns(items, t, q', k, ks', env);
      assert LexLe(ks', ks);
      var c, c' := HeadCount(items, k, ks), HeadCount(items, k, ks');
      if c == c' {
        SamePrefix(q, q', k);
        NextIsPlaced(items, t, q, k, env);
        MarksStep(items, t, q, k, env, c);
        var l := Consume(e, c, t, q[k], env, -1).value;
        GreatestCuts(items, t, q, q', k + 1, TailCounts(items, k, ks), l.env);
      } else {
        FewerEndEarlier(e, c, c', t, q[k], env);
        assert q'[..k + 1] == q[..k + 1] && q'[k + 1] < q[k + 1];
      }
    }
  }

  /** The greediest run divides the text at the greatest cut points, and its marks are those at the parentheses. */
  lemma GreediestCuts(items: seq<Item>, t: seq<byte>, f: Found, env: Env) returns (q: seq<nat>)
    requires Supported(items) && WellFormed(Elems(items), {}, {}) && Greediest(Elems(items), t, f, env, -1)
    ensures Cuts(items, t, q) && q[0] == f.start && q[|items|] == f.end && MarksAre(items, q, |items|, f.env)
    ensures forall q' | Cuts(items, t, q') && q'[0] == f.start :: NoLonger(q', q)
  {
    hide Run, Takes, Follows, WellFormed;
    q := CutsOfRun(items, t, f.start, f.picks, env);
    assert items[0..] == items;
    forall q' | Cuts(items, t, q') && q'[0] == f.start
      ensures NoLonger(q', q)
    {
      assert q[..1] == q'[..1];
      GreatestCuts(items, t, q, q', 0, f.picks, env);
    }
  }

  /** The pattern matches somewhere exactly where its program does. */
  lemma MatchesExactly(items: seq<Item>, t: seq<byte>, i: nat, env: Env)
    requires Supported(items) && WellFormed(Elems(items), {}, {}) && i <= |t|
    ensures MatchesAt(Elems(items), t, i, env, -1) <==> exists q :: Cuts(items, t, q) && q[0] == i
  {
    hide Takes, Run, WellFormed;
    if MatchesAt(Elems(items), t, i, env, -1) {
      var ks :| Run(Elems(items), ks, t, i, env, -1).Some?;
      var q := CutsOfRun(items, t, i, ks, env);
    }
    if q :| Cuts(items, t, q) && q[0] == i {
      var ks := RunOfCuts(items, t, q, env);
    }
  }

  /** The cut points with the least start and, among those, the greatest. */
  ghost predicate BestCuts(anchored: bool, items: seq<Item>, t: seq<byte>, q: seq<nat>) {
    && Cuts(items, t, q) && (anchored ==> q[0] == 0)
    && forall q' | Cuts(items, t, q') && (anchored ==> q'[0] == 0) ::
         q[0] < q'[0] || (q[0] == q'[0] && NoLonger(q', q))
  }

  /** The leftmost greediest match of the program is at the best cut points of the pattern. */
  lemma GreediestIsBest(anchored: bool, items: seq<Item>, t: seq<byte>, f: Found, env: Env) returns (q: seq<nat>)
    requires Supported(items) && WellFormed(Elems(items), {}, {}) && Greediest(Elems(items), t, f, env, -1)
    requires anchored ==> f.start == 0
    requires forall j: nat | j < f.start :: !MatchesAt(Elems(items), t, j, env, -1)
    ensures BestCuts(anchored, items, t, q) && q[0] == f.start && q[|items|] == f.end
    ensures MarksAre(items, q, |items|, f.env)
  {
    hide Takes, Run, WellFormed, NoLonger;
    q := GreediestCuts(items, t, f, env);
    forall q' | Cuts(items, t, q') && (anchored ==> q'[0] == 0)
      ensures q[0] < q'[0] || (q[0] == q'[0] && NoLonger(q', q))
    {
      MatchesExactly(items, t, q'[0], env);
    }
  }

  lemma {:induction false} ParensAreWritten(items: seq<Item>, k: nat)
    requires Supported(items) && k < |items|
    ensures items[k].piece.OpenGroup? ==> items[k].piece.g in Opens(Elems(items))
    ensures items[k].piece.CloseGroup? ==> items[k].piece.g in Closes(Elems(items))
    decreases k
  {
    var es := Elems(items);
    assert es[0] == ElemOf(items[0]) && es[1..] == Elems(items[1..]);
    if k == 0 {
    } else {
      ParensAreWritten(items[1..], k - 1);
    }
  }

  lemma MarksAgree(items: seq<Item>, q: seq<nat>, env: Env, env': Env)
    requires Supported(items) && |items| <= |q| && MarksAre(items, q, |items|, env)
    requires AgreeOn(env', env, Opens(Elems(items)), Closes(Elems(items)))
    ensures MarksAre(items, q, |items|, env')
  {
    forall k | 0 <= k < |items|
      ensures items[k].piece.OpenGroup? ==> env'.starts[items[k].piece.g] == q[k]
      ensures items[k].piece.CloseGroup? ==> env'.ends[items[k].piece.g] == q[k]
    {
      ParensAreWritten(items, k);
    }
  }
}
