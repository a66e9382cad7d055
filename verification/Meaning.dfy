/**
 What a decoded program means. `Run` is the declarative reading: given one repetition count for each
 repeated element, the program either lands at a definite position with definite captures or does not
 match. `Search` is the backtracking order in which `advance` tries those counts.
 */
module Meaning {
  import opened Bytes
  import opened Program

  type Marks = m: seq<int> | |m| == NBRA witness [-1, -1, -1, -1, -1, -1, -1, -1, -1]

  /** `braslist` and `braelist`, with subject positions for pointers. */
  datatype Env = Env(starts: Marks, ends: Marks)

  /** What group g captured; empty when its marks are not a span of the subject. */
  function Captured(t: seq<byte>, env: Env, g: Group): seq<byte> {
    if 0 <= env.starts[g] <= env.ends[g] <= |t| then t[env.starts[g]..env.ends[g]] else []
  }

  // ---------- The declarative reading ----------

  /** Every byte of t from `from` up to `to` is accepted. */
  ghost predicate Stretch(a: Atom, t: seq<byte>, from: nat, to: int) {
    from <= to <= |t| && forall i | from <= i < to :: a.Accepts(t[i])
  }

  /**
   The scan from `pos` passes the cut-off at or above a hand-over after lo + k bytes. The search walks
   down from the end of the scan and gives up for good when it meets the cut-off.
   */
  ghost predicate Blocked(a: Atom, lo: nat, more: Limit, t: seq<byte>, pos: nat, k: nat, cut: int) {
    pos + lo + k <= cut && more.Allows(cut - pos - lo) && Stretch(a, t, pos, cut)
  }

  function Repeat(w: seq<byte>, k: nat): (r: seq<byte>) {
    if k == 0 then [] else w + Repeat(w, k - 1)
  }

  datatype Landing = Landing(end: nat, env: Env)

  /** One element from `pos`, repeated elements taking k repetitions beyond their minimum. */
  ghost function Consume(e: Elem, k: nat, t: seq<byte>, pos: nat, env: Env, cut: int): (r: Option<Landing>)
    requires pos <= |t|
    ensures r.Some? ==> pos <= r.value.end <= |t|
  {
    match e
    case One(a) =>
      if Stretch(a, t, pos, pos + 1) then Some(Landing(pos + 1, env)) else None
    case Many(a, lo, more) =>
      if more.Allows(k) && Stretch(a, t, pos, pos + lo + k) && !Blocked(a, lo, more, t, pos, k, cut)
      then Some(Landing(pos + lo + k, env))
      else None
    case Open(g) => Some(Landing(pos, env.(starts := env.starts[g := pos])))
    case Close(g) => Some(Landing(pos, env.(ends := env.ends[g := pos])))
    case Back(g) =>
      var w := Captured(t, env, g);
      if w <= t[pos..] then Some(Landing(pos + |w|, env)) else None
    case BackMany(g) =>
      var w := Repeat(Captured(t, env, g), k);
      if w <= t[pos..] then Some(Landing(pos + |w|, env)) else None
    case Eol => if pos == |t| then Some(Landing(pos, env)) else None
    case Nop => Some(Landing(pos, env))
  }

  predicate Repeats(e: Elem) { e.Many? || e.BackMany? }

  /** Run the elements from `pos` with the repetition counts ks, one for each repeated element. */
  ghost function Run(es: seq<Elem>, ks: seq<nat>, t: seq<byte>, pos: nat, env: Env, cut: int): (r: Option<Landing>)
    requires pos <= |t|
    decreases |es|
    ensures r.Some? ==> pos <= r.value.end <= |t|
  {
    if es == [] then
      if ks == [] then Some(Landing(pos, env)) else None
    else if Repeats(es[0]) then
      if ks == [] then None
      else
        var l := Consume(es[0], ks[0], t, pos, env, cut);
        if l.None? then None else Run(es[1..], ks[1..], t, l.value.end, l.value.env, cut)
    else
      var l := Consume(es[0], 0, t, pos, env, cut);
      if l.None? then None else Run(es[1..], ks, t, l.value.end, l.value.env, cut)
  }

  /** Lexicographic order on count vectors. */
  predicate LexLe(a: seq<nat>, b: seq<nat>) {
    a == [] || (b != [] && (a[0] < b[0] || (a[0] == b[0] && LexLe(a[1..], b[1..]))))
  }

  // ---------- The backtracking search ----------

  datatype Outcome = Miss | Hang | Hit(end: nat, env: Env, picks: seq<nat>)

  function RunLength(a: Atom, t: seq<byte>, pos: nat): (r: nat)
    ensures pos <= |t| ==> pos + r <= |t|
    decreases |t| - pos
  {
    if pos < |t| && a.Accepts(t[pos]) then 1 + RunLength(a, t, pos + 1) else 0
  }

  function CopyCount(w: seq<byte>, t: seq<byte>, pos: nat): nat
    requires w != [] && pos <= |t|
    decreases |t| - pos
  {
    if w <= t[pos..] then 1 + CopyCount(w, t, pos + |w|) else 0
  }

  /** The position after k steps of the given width. */
  function At(base: nat, width: nat, k: nat): (p: nat)
    ensures width == 1 ==> p == base + k
  {
    if k == 0 then base else At(base, width, k - 1) + width
  }

  /**
   How a repeated element is explored: no attempt at all, a scan that never ends (a starred back-reference
   to an empty capture), or attempts after top, top - 1, ..., 0 steps from base.
   */
  datatype Plan = Stuck | Endless | Descend(base: nat, width: nat, top: nat, guard: int)

  function PlanFor(e: Elem, t: seq<byte>, pos: nat, env: Env, cut: int): (p: Plan)
    requires pos <= |t| && Repeats(e)
    ensures p.Descend? ==> At(p.base, p.width, p.top) <= |t|
  {
    match e
    case Many(a, lo, more) =>
      var run := RunLength(a, t, pos);
      if run < lo then Stuck else Descend(pos + lo, 1, more.Cap(run - lo), cut)
    case BackMany(g) =>
      var w := Captured(t, env, g);
      if w == [] then Endless
      else
        CopiesFit(w, t, pos, CopyCount(w, t, pos));
        Descend(pos, |w|, CopyCount(w, t, pos), -1)
  }

  /** The order in which `advance` explores. */
  ghost function Search(es: seq<Elem>, t: seq<byte>, pos: nat, env: Env, cut: int): Outcome
    requires pos <= |t|
    decreases |es|, 0
  {
    if es == [] then Hit(pos, env, [])
    else if Repeats(es[0]) then
      match PlanFor(es[0], t, pos, env, cut)
      case Stuck => Miss
      case Endless => Hang
      case Descend(base, width, top, guard) => TryDown(es[1..], t, base, width, top, env, guard, cut)
    else
      match Consume(es[0], 0, t, pos, env, cut)
      case None => Miss
      case Some(l) => Search(es[1..], t, l.end, l.env, cut)
  }

  /** Try the rest after k, k - 1, ..., 0 steps; meeting the guard position ends the attempt. */
  ghost function TryDown(es: seq<Elem>, t: seq<byte>, base: nat, width: nat, k: nat, env: Env, guard: int,
                         cut: int): Outcome
    requires At(base, width, k) <= |t|
    decreases |es|, k + 1
  {
    var p := At(base, width, k);
    if p == guard then Miss
    else
      match Search(es, t, p, env, cut)
      case Hit(end, env', picks) => Hit(end, env', [k] + picks)
      case Hang => Hang
      case Miss => if k == 0 then Miss else TryDown(es, t, base, width, k - 1, env, guard, cut)
  }

  /** The marks that a search leaves behind when it misses: those of the last branch it tried, over older ones. */
  ghost function Leaves(es: seq<Elem>, t: seq<byte>, pos: nat, env: Env, cut: int): Env
    requires pos <= |t|
    decreases |es|, 0
  {
    if es == [] then env
    else if Repeats(es[0]) then
      match PlanFor(es[0], t, pos, env, cut)
      case Stuck => env
      case Endless => env
      case Descend(base, width, top, guard) => TryLeaves(es[1..], t, base, width, top, env, guard, cut)
    else
      match Consume(es[0], 0, t, pos, env, cut)
      case None => env
      case Some(l) => Leaves(es[1..], t, l.end, l.env, cut)
  }

  ghost function TryLeaves(es: seq<Elem>, t: seq<byte>, base: nat, width: nat, k: nat, env: Env, guard: int,
                           cut: int): Env
    requires At(base, width, k) <= |t|
    decreases |es|, k + 1
  {
    var p := At(base, width, k);
    if p == guard then env
    else if k == 0 then Leaves(es, t, p, env, cut)
    else TryLeaves(es, t, base, width, k - 1, Leaves(es, t, p, env, cut), guard, cut)
  }

  lemma {:induction false} StretchIsRun(a: Atom, t: seq<byte>, pos: nat, k: nat)
    requires pos <= |t|
    ensures Stretch(a, t, pos, pos + k) <==> k <= RunLength(a, t, pos)
    decreases k
  {
    if k > 0 && pos < |t| {
      StretchIsRun(a, t, pos + 1, k - 1);
    }
  }

  lemma {:induction false} CopiesFit(w: seq<byte>, t: seq<byte>, pos: nat, k: nat)
    requires w != [] && pos <= |t|
    ensures At(pos, |w|, k) == pos + |Repeat(w, k)|
    ensures Repeat(w, k) <= t[pos..] <==> k <= CopyCount(w, t, pos)
    decreases k
  {
    RepeatWidth(w, pos, k);
    if k == 0 {
    } else {
      if w <= t[pos..] {
        CopiesFit(w, t, pos + |w|, k - 1);
        assert t[pos..] == w + t[pos + |w|..];
        assert Repeat(w, k) <= t[pos..] <==> Repeat(w, k - 1) <= t[pos + |w|..];
      } else {
        assert Repeat(w, k)[..|w|] == w;
      }
    }
  }

  lemma {:induction false} RepeatWidth(w: seq<byte>, base: nat, k: nat)
    ensures At(base, |w|, k) == base + |Repeat(w, k)|
  {
    if k == 0 {
    } else {
      RepeatWidth(w, base, k - 1);
    }
  }

}
