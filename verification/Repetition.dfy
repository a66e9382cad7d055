/** A star and an open interval agree on subjects of up to 20000 bytes, and a cut-off only removes matches. */
module Repetition {
  import opened Bytes
  import opened Program
  import opened Meaning

  /** Write every star on a one-character element as an interval from 0 with an open end. */
  function StarsAsIntervals(es: seq<Elem>): (r: seq<Elem>)
    ensures |r| == |es|
  {
    if es == [] then []
    else
      var e := es[0];
      [if e.Many? && e.lo == 0 && e.more.Unlimited? then Many(e.a, 0, AtMost(OPEN_SPAN)) else e] +
      StarsAsIntervals(es[1..])
  }

  /** On a subject of at most 20000 bytes this changes nothing: verdict, end, counts and captures stay. */
  lemma {:induction false} StarIsOpenInterval(es: seq<Elem>, t: seq<byte>, pos: nat, env: Env, cut: int)
    requires pos <= |t| <= OPEN_SPAN
    ensures Search(StarsAsIntervals(es), t, pos, env, cut) == Search(es, t, pos, env, cut)
    decreases |es|, 0
  {
    if es == [] {
    } else {
      var es', rest := StarsAsIntervals(es), es[1..];
      assert es'[1..] == StarsAsIntervals(rest);
      if Repeats(es[0]) {
        var p := PlanFor(es[0], t, pos, env, cut);
        assert PlanFor(es'[0], t, pos, env, cut) == p;
        if p.Descend? {
          TriesAgree(rest, t, p.base, p.width, p.top, env, p.guard, cut);
        }
      } else {
        var l := Consume(es[0], 0, t, pos, env, cut);
        if l.Some? {
          StarIsOpenInterval(rest, t, l.value.end, l.value.env, cut);
        }
      }
    }
  }

  lemma {:induction false} TriesAgree(es: seq<Elem>, t: seq<byte>, base: nat, width: nat, k: nat, env: Env, guard: int,
                                      cut: int)
    requires At(base, width, k) <= |t| <= OPEN_SPAN
    ensures TryDown(StarsAsIntervals(es), t, base, width, k, env, guard, cut)
         == TryDown(es, t, base, width, k, env, guard, cut)
    decreases |es|, k + 1
  {
    StarIsOpenInterval(es, t, At(base, width, k), env, cut);
    if k == 0 {
    } else {
      TriesAgree(es, t, base, width, k - 1, env, guard, cut);
    }
  }

  /** The bound on the run is exact: alone, the two stop at the same place only if the run has at most 20000 bytes. */
  lemma StarIsOpenIntervalExactly(a: Atom, t: seq<byte>, pos: nat, env: Env)
    requires pos <= |t|
    ensures Search([Many(a, 0, Unlimited)], t, pos, env, -1) == Search([Many(a, 0, AtMost(OPEN_SPAN))], t, pos, env, -1)
            <==> RunLength(a, t, pos) <= OPEN_SPAN
  {
    AloneTakesAll(a, Unlimited, t, pos, env);
    AloneTakesAll(a, AtMost(OPEN_SPAN), t, pos, env);
  }

  lemma AloneTakesAll(a: Atom, more: Limit, t: seq<byte>, pos: nat, env: Env)
    requires pos <= |t|
    ensures var k := more.Cap(RunLength(a, t, pos));
            Search([Many(a, 0, more)], t, pos, env, -1) == Hit(pos + k, env, [k])
  {
    var e, k := Many(a, 0, more), more.Cap(RunLength(a, t, pos));
    assert PlanFor(e, t, pos, env, -1) == Descend(pos, 1, k, -1);
    assert Search([], t, At(pos, 1, k), env, -1) == Hit(pos + k, env, []);
    assert TryDown([], t, pos, 1, k, env, -1, -1) == Hit(pos + k, env, [k] + []);
    assert [e][1..] == [] && [k] + [] == [k];
  }

  /** The positions at which the repeated one-character elements of a run hand over to the rest. */
  ghost function HandOvers(es: seq<Elem>, ks: seq<nat>, t: seq<byte>, pos: nat, env: Env, cut: int): set<nat>
    requires pos <= |t| && Run(es, ks, t, pos, env, cut).Some?
    decreases |es|
  {
    if es == [] then {}
    else
      var k, ks' := if Repeats(es[0]) then ks[0] else 0, if Repeats(es[0]) then ks[1..] else ks;
      var l := Consume(es[0], k, t, pos, env, cut).value;
      (if es[0].Many? then {l.end} else {}) + HandOvers(es[1..], ks', t, l.end, l.env, cut)
  }

  /** Whatever matches with a cut-off matches in the same way without it, and never hands over at the cut-off. */
  lemma {:induction false} CutOnlyRemoves(es: seq<Elem>, ks: seq<nat>, t: seq<byte>, pos: nat, env: Env, cut: int)
    requires pos <= |t| && Run(es, ks, t, pos, env, cut).Some?
    ensures Run(es, ks, t, pos, env, -1) == Run(es, ks, t, pos, env, cut)
    ensures cut !in HandOvers(es, ks, t, pos, env, cut)
    decreases |es|
  {
    if es == [] {
    } else {
      var k, ks' := if Repeats(es[0]) then ks[0] else 0, if Repeats(es[0]) then ks[1..] else ks;
      var l := Consume(es[0], k, t, pos, env, cut).value;
      assert Consume(es[0], k, t, pos, env, -1) == Some(l);
      CutOnlyRemoves(es[1..], ks', t, l.end, l.env, cut);
    }
  }
}
