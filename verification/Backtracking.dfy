/** The backtracking search is sound, complete and greedy for the declarative reading of a program. */
module Backtracking {
  import opened Bytes
  import opened Program
  import opened Meaning

  lemma {:induction false} AtMonotone(base: nat, width: nat, j: nat, k: nat)
    requires j <= k
    ensures base <= At(base, width, j) <= At(base, width, k)
  {
    if j < k {
      AtMonotone(base, width, j, k - 1);
    } else if k > 0 {
      AtMonotone(base, width, k - 1, k - 1);
    }
  }

  /** The guard position is one of those reached after j .. k steps. */
  ghost predicate Met(base: nat, width: nat, j: nat, k: nat, guard: int) {
    exists i: nat | j <= i <= k :: At(base, width, i) == guard
  }

  /** A hit reports the count it was found at, and the guard was not met on the way down. */
  lemma {:induction false} TryDownHit(es: seq<Elem>, t: seq<byte>, base: nat, width: nat, k: nat, env: Env,
                                      guard: int, cut: int)
    requires At(base, width, k) <= |t|
    requires TryDown(es, t, base, width, k, env, guard, cut).Hit?
    ensures var r := TryDown(es, t, base, width, k, env, guard, cut);
            && r.picks != [] && r.picks[0] <= k
            && At(base, width, r.picks[0]) <= |t|
            && Search(es, t, At(base, width, r.picks[0]), env, cut) == Hit(r.end, r.env, r.picks[1..])
            && !Met(base, width, r.picks[0], k, guard)
  {
    if Search(es, t, At(base, width, k), env, cut).Miss? {
      AtMonotone(base, width, k - 1, k);
      TryDownHit(es, t, base, width, k - 1, env, guard, cut);
    }
  }

  /** Every count above the one reported was tried and missed, unless the guard stopped the attempt first. */
  lemma {:induction false} TryDownRefuses(es: seq<Elem>, t: seq<byte>, base: nat, width: nat, k: nat, env: Env,
                                          guard: int, cut: int, j: nat)
    requires At(base, width, k) <= |t| && j <= k
    requires var r := TryDown(es, t, base, width, k, env, guard, cut);
             r.Miss? || (r.Hit? && r.picks != [] && r.picks[0] < j)
    ensures At(base, width, j) <= |t|
    ensures Search(es, t, At(base, width, j), env, cut).Miss?
            || Met(base, width, j, k, guard)
  {
    AtMonotone(base, width, j, k);
    if At(base, width, k) != guard && j < k {
      AtMonotone(base, width, k - 1, k);
      TryDownRefuses(es, t, base, width, k - 1, env, guard, cut, j);
    }
  }

  /** The plan for a repeated element offers exactly the counts that its declarative reading allows. */
  lemma PlanIsConsume(e: Elem, k: nat, t: seq<byte>, pos: nat, env: Env, cut: int)
    requires pos <= |t| && Repeats(e)
    ensures var p := PlanFor(e, t, pos, env, cut);
            && (p.Stuck? ==> Consume(e, k, t, pos, env, cut).None?)
            && (p.Descend? && k <= p.top && !Met(p.base, p.width, k, p.top, p.guard) ==>
                  Consume(e, k, t, pos, env, cut) == Some(Landing(At(p.base, p.width, k), env)))
            && (p.Descend? && Consume(e, k, t, pos, env, cut).Some? ==>
                  k <= p.top && !Met(p.base, p.width, k, p.top, p.guard))
  {
    match e
    case Many(a, lo, more) =>
      StretchIsRun(a, t, pos, lo + k);
      if lo <= RunLength(a, t, pos) && pos + lo + k <= cut {
        StretchIsRun(a, t, pos, cut - pos);
        assert At(pos + lo, 1, cut - pos - lo) == cut;
      }
    case BackMany(g) =>
      if Captured(t, env, g) != [] {
        CopiesFit(Captured(t, env, g), t, pos, k);
      }
  }

  /** Every hit of the search is a run of the program with the reported counts. */
  lemma {:induction false} SearchSound(es: seq<Elem>, t: seq<byte>, pos: nat, env: Env, cut: int)
    requires pos <= |t|
    requires Search(es, t, pos, env, cut).Hit?
    ensures var r := Search(es, t, pos, env, cut);
            Run(es, r.picks, t, pos, env, cut) == Some(Landing(r.end, r.env))
    decreases |es|
  {
    if es == [] {
    } else if Repeats(es[0]) {
      var p := PlanFor(es[0], t, pos, env, cut);
      TryDownHit(es[1..], t, p.base, p.width, p.top, env, p.guard, cut);
      var k := Search(es, t, pos, env, cut).picks[0];
      PlanIsConsume(es[0], k, t, pos, env, cut);
      SearchSound(es[1..], t, At(p.base, p.width, k), env, cut);
    } else {
      var l := Consume(es[0], 0, t, pos, env, cut).value;
      SearchSound(es[1..], t, l.end, l.env, cut);
    }
  }

  /**
   If any count vector makes the program match, the search hits, and the vector it reports is the
   lexicographically greatest of all that do. The one exception is a search that never returns.
   */
  lemma {:induction false} SearchGreedy(es: seq<Elem>, ks: seq<nat>, t: seq<byte>, pos: nat, env: Env, cut: int)
    requires pos <= |t|
    requires Run(es, ks, t, pos, env, cut).Some?
    ensures var r := Search(es, t, pos, env, cut);
            r.Hang? || (r.Hit? && LexLe(ks, r.picks))
    decreases |es|
  {
    if es == [] {
    } else if Repeats(es[0]) {
      var p := PlanFor(es[0], t, pos, env, cut);
      PlanIsConsume(es[0], ks[0], t, pos, env, cut);
      if p.Descend? {
        SearchGreedy(es[1..], ks[1..], t, At(p.base, p.width, ks[0]), env, cut);
        TryGreedy(es[1..], ks, t, p.base, p.width, p.top, env, p.guard, cut);
      }
    } else {
      var l := Consume(es[0], 0, t, pos, env, cut).value;
      SearchGreedy(es[1..], ks, t, l.end, l.env, cut);
    }
  }

  lemma {:induction false} TryGreedy(es: seq<Elem>, ks: seq<nat>, t: seq<byte>, base: nat, width: nat, m: nat,
                                     env: Env, guard: int, cut: int)
    requires At(base, width, m) <= |t|
    requires ks != [] && ks[0] <= m && At(base, width, ks[0]) <= |t|
    requires !Met(base, width, ks[0], m, guard)
    requires var r := Search(es, t, At(base, width, ks[0]), env, cut);
             r.Hang? || (r.Hit? && LexLe(ks[1..], r.picks))
    ensures var r := TryDown(es, t, base, width, m, env, guard, cut);
            r.Hang? || (r.Hit? && LexLe(ks, r.picks))
  {
    var r := TryDown(es, t, base, width, m, env, guard, cut);
    if r.Hit? {
      TryDownHit(es, t, base, width, m, env, guard, cut);
      if r.picks[0] < ks[0] {
        TryDownRefuses(es, t, base, width, m, env, guard, cut, ks[0]);
        assert false;
      }
    } else if r.Miss? {
      TryDownRefuses(es, t, base, width, m, env, guard, cut, ks[0]);
      assert false;
    }
  }

  /** Without a hang, the search hits exactly when some count vector makes the program match. */
  lemma SearchDecides(es: seq<Elem>, t: seq<byte>, pos: nat, env: Env, cut: int)
    requires pos <= |t|
    requires !Search(es, t, pos, env, cut).Hang?
    ensures Search(es, t, pos, env, cut).Hit? <==> exists ks :: Run(es, ks, t, pos, env, cut).Some?
  {
    if Search(es, t, pos, env, cut).Hit? {
      SearchSound(es, t, pos, env, cut);
      assert Run(es, Search(es, t, pos, env, cut).picks, t, pos, env, cut).Some?;
    }
    if ks :| Run(es, ks, t, pos, env, cut).Some? {
      SearchGreedy(es, ks, t, pos, env, cut);
    }
  }
}
