/** When `advance` returns: no starred back-reference may meet an empty capture. */
module Termination {
  import opened Bytes
  import opened Program
  import opened Meaning
  import opened Backtracking
  import opened Captures

  ghost predicate Satisfiable(a: Atom) { exists x: byte :: a.Accepts(x) }

  /** An element that takes at least one byte of a class without members. Nothing gets past it. */
  ghost predicate Dead(e: Elem) {
    (e.One? || (e.Many? && e.lo > 0)) && !Satisfiable(e.a)
  }

  /**
   Every starred back-reference that can be reached names a group that cannot capture the empty string. `thin`
   holds the open groups in which nothing is sure to have been consumed yet, `solid` the closed groups that never
   capture the empty string.
   */
  ghost predicate Solid(es: seq<Elem>, thin: set<Group>, solid: set<Group>)
    decreases |es|
  {
    es != [] && !Dead(es[0]) ==>
      && (es[0].BackMany? ==> es[0].g in solid)
      && Solid(es[1..], ThinAfter(es[0], thin, solid), SolidAfter(es[0], thin, solid))
  }

  predicate Consumes(e: Elem, solid: set<Group>) {
    e.One? || (e.Many? && e.lo > 0) || (e.Back? && e.g in solid)
  }

  function ThinAfter(e: Elem, thin: set<Group>, solid: set<Group>): set<Group> {
    if Consumes(e, solid) then {} else if e.Open? then thin + {e.g} else thin
  }

  function SolidAfter(e: Elem, thin: set<Group>, solid: set<Group>): set<Group> {
    if e.Close? && e.g !in thin then solid + {e.g} else solid
  }

  /** The marks bear out what `thin` and `solid` say. */
  ghost predicate SolidMarks(env: Env, begun: set<Group>, ended: set<Group>, thin: set<Group>, solid: set<Group>,
                             pos: nat)
  {
    && solid <= ended
    && (forall g | g in begun - ended - thin :: env.starts[g] < pos)
    && (forall g | g in solid :: env.starts[g] < env.ends[g])
  }

  lemma ConsumeKeepsSolid(e: Elem, k: nat, t: seq<byte>, pos: nat, env: Env, cut: int, begun: set<Group>,
                          ended: set<Group>, thin: set<Group>, solid: set<Group>)
    requires pos <= |t| && Consume(e, k, t, pos, env, cut).Some?
    requires WellFormed([e], begun, ended) && SpansOk(env, begun, ended, pos)
    requires SolidMarks(env, begun, ended, thin, solid, pos)
    ensures var l := Consume(e, k, t, pos, env, cut).value;
            SolidMarks(l.env, BegunAfter(e, begun), EndedAfter(e, ended), ThinAfter(e, thin, solid),
                       SolidAfter(e, thin, solid), l.end)
  {
    if e.Back? && e.g in solid {
      assert |Captured(t, env, e.g)| > 0;
    }
  }

  lemma DeadMisses(es: seq<Elem>, t: seq<byte>, pos: nat, env: Env, cut: int)
    requires pos <= |t| && es != [] && Dead(es[0])
    ensures Search(es, t, pos, env, cut).Miss?
  {
    if es[0].Many? {
      assert RunLength(es[0].a, t, pos) == 0;
    } else {
      assert pos < |t| ==> !es[0].a.Accepts(t[pos]);
    }
  }

  /** A program with solid back-references never hangs, whatever the subject. */
  lemma {:induction false} SolidNeverHangs(es: seq<Elem>, t: seq<byte>, pos: nat, env: Env, cut: int,
                                           begun: set<Group>, ended: set<Group>, thin: set<Group>, solid: set<Group>)
    requires pos <= |t| && WellFormed(es, begun, ended) && SpansOk(env, begun, ended, pos)
    requires Solid(es, thin, solid) && SolidMarks(env, begun, ended, thin, solid, pos)
    ensures !Search(es, t, pos, env, cut).Hang?
    decreases |es|, 1, 0
  {
    if es != [] && Dead(es[0]) {
      DeadMisses(es, t, pos, env, cut);
    } else if es != [] {
      var e, rest := es[0], es[1..];
      assert WellFormed([e], begun, ended);
      if Repeats(e) {
        var p := PlanFor(e, t, pos, env, cut);
        if p.Descend? {
          TriesNeverHang(es, t, pos, p.top, env, cut, begun, ended, thin, solid);
        }
      } else {
        var l := Consume(e, 0, t, pos, env, cut);
        if l.Some? {
          ConsumeKeepsSolid(e, 0, t, pos, env, cut, begun, ended, thin, solid);
          FixedStep(es, t, pos, env, cut, begun, ended);
          SolidNeverHangs(rest, t, l.value.end, l.value.env, cut, BegunAfter(e, begun), EndedAfter(e, ended),
                          ThinAfter(e, thin, solid), SolidAfter(e, thin, solid));
        }
      }
    }
  }

  lemma {:induction false} TriesNeverHang(es: seq<Elem>, t: seq<byte>, pos: nat, k: nat, env: Env, cut: int,
                                          begun: set<Group>, ended: set<Group>, thin: set<Group>, solid: set<Group>)
    requires pos <= |t| && WellFormed(es, begun, ended) && SpansOk(env, begun, ended, pos)
    requires Solid(es, thin, solid) && SolidMarks(env, begun, ended, thin, solid, pos)
    requires es != [] && !Dead(es[0]) && Repeats(es[0]) && PlanFor(es[0], t, pos, env, cut).Descend?
    requires k <= PlanFor(es[0], t, pos, env, cut).top
    ensures var p := PlanFor(es[0], t, pos, env, cut);
            At(p.base, p.width, k) <= |t| && !TryDown(es[1..], t, p.base, p.width, k, env, p.guard, cut).Hang?
    decreases |es|, 0, k + 1
  {
    var e, p := es[0], PlanFor(es[0], t, pos, env, cut);
    AtMonotone(p.base, p.width, k, p.top);
    SolidNeverHangs(es[1..], t, At(p.base, p.width, k), env, cut, begun, ended, ThinAfter(e, thin, solid), solid);
    if k == 0 {
    } else {
      TriesNeverHang(es, t, pos, k - 1, env, cut, begun, ended, thin, solid);
    }
  }

  // ---------- The condition is exact ----------

  /** An end-of-line anchor comes last. */
  ghost predicate AnchorLast(es: seq<Elem>)
    decreases |es|
  {
    es != [] ==> (es[0].Eol? ==> es[1..] == []) && AnchorLast(es[1..])
  }

  ghost predicate NoNul(t: seq<byte>) { forall i | 0 <= i < |t| :: t[i] != 0 }

  ghost function Sample(a: Atom): byte
    requires Satisfiable(a)
    ensures a.Accepts(Sample(a))
  {
    var x: byte :| a.Accepts(x); x
  }

  ghost function Samples(a: Atom, n: nat): (r: seq<byte>)
    requires n > 0 ==> Satisfiable(a)
    ensures |r| == n && forall i | 0 <= i < n :: a.Accepts(r[i])
  {
    if n == 0 then [] else [Sample(a)] + Samples(a, n - 1)
  }

  /** The text that e takes at least, after the text t with the captures env. */
  ghost function LeastText(e: Elem, t: seq<byte>, env: Env): seq<byte>
    requires !Dead(e)
  {
    match e
    case One(a) => Samples(a, 1)
    case Many(a, lo, _) => Samples(a, lo)
    case Back(g) => Captured(t, env, g)
    case _ => []
  }

  /** Where e leaves the marks when it takes its least text. */
  function LeastEnv(e: Elem, t: seq<byte>, env: Env): Env {
    match e
    case Open(g) => env.(starts := env.starts[g := |t|])
    case Close(g) => env.(ends := env.ends[g := |t|])
    case _ => env
  }

  /** The least text up to the first starred back-reference that then meets an empty capture. */
  ghost function Trap(es: seq<Elem>, t: seq<byte>, env: Env): (r: seq<byte>)
    ensures t <= r
    decreases |es|
  {
    if es == [] || Dead(es[0]) || (es[0].BackMany? && Captured(t, env, es[0].g) == []) then t
    else Trap(es[1..], t + LeastText(es[0], t, env), LeastEnv(es[0], t, env))
  }

  /** `thin` and `solid` describe the marks exactly. */
  ghost predicate ExactMarks(env: Env, begun: set<Group>, ended: set<Group>, thin: set<Group>, solid: set<Group>,
                             pos: nat)
  {
    && solid <= ended
    && (forall g | g in begun - ended :: g in thin <==> env.starts[g] == pos)
    && (forall g | g in ended :: g in solid <==> env.starts[g] < env.ends[g])
  }

  /** Another attempt has come at least as far as the least one, before, inside and after every group. */
  ghost predicate Ahead(pos: nat, env: Env, pos': nat, env': Env, begun: set<Group>, ended: set<Group>) {
    && pos <= pos'
    && (forall g | g in begun :: env.starts[g] <= env'.starts[g])
    && (forall g | g in begun - ended :: pos - env.starts[g] <= pos' - env'.starts[g])
    && (forall g | g in ended ::
          && env.ends[g] - env.starts[g] <= env'.ends[g] - env'.starts[g]
          && pos - env.ends[g] <= pos' - env'.ends[g])
  }

  /** The least run so far: its text, its marks and what the static check says of them. */
  ghost predicate LeastRun(es: seq<Elem>, t: seq<byte>, env: Env, begun: set<Group>, ended: set<Group>,
                           thin: set<Group>, solid: set<Group>)
  {
    && WellFormed(es, begun, ended) && AnchorLast(es) && !Solid(es, thin, solid)
    && SpansOk(env, begun, ended, |t|) && ExactMarks(env, begun, ended, thin, solid, |t|)
  }

  /** Unless it stands at the trap, the least run goes on with the next element. */
  lemma LeastRunStep(es: seq<Elem>, t: seq<byte>, env: Env, begun: set<Group>, ended: set<Group>,
                     thin: set<Group>, solid: set<Group>)
    requires LeastRun(es, t, env, begun, ended, thin, solid)
    requires !(es[0].BackMany? && Captured(t, env, es[0].g) == [])
    ensures var e := es[0];
            LeastRun(es[1..], t + LeastText(e, t, env), LeastEnv(e, t, env), BegunAfter(e, begun),
                     EndedAfter(e, ended), ThinAfter(e, thin, solid), SolidAfter(e, thin, solid))
  {
    var e := es[0];
    if e.Back? && e.g !in solid {
      assert Captured(t, env, e.g) == [];
    }
  }

  /** An attempt that is ahead stays ahead if it takes at least the least text of the next element. */
  lemma AheadStep(e: Elem, t: seq<byte>, env: Env, pos': nat, env': Env, q: nat, begun: set<Group>, ended: set<Group>)
    requires WellFormed([e], begun, ended) && SpansOk(env, begun, ended, |t|) && SpansOk(env', begun, ended, pos')
    requires !Dead(e)
    requires Ahead(|t|, env, pos', env', begun, ended) && q >= pos' + |LeastText(e, t, env)|
    requires e.Open? || e.Close? ==> q == pos'
    ensures var env2 := if e.Open? then env'.(starts := env'.starts[e.g := pos'])
                        else if e.Close? then env'.(ends := env'.ends[e.g := pos']) else env';
            && Ahead(|t + LeastText(e, t, env)|, LeastEnv(e, t, env), q, env2, BegunAfter(e, begun),
                     EndedAfter(e, ended))
            && SpansOk(env2, BegunAfter(e, begun), EndedAfter(e, ended), q)
  {
  }

  /** An attempt on the trap text that is ahead of the least run, as far as that has come. */
  ghost predicate Chase(es: seq<Elem>, t: seq<byte>, env: Env, trap: seq<byte>, pos': nat, env': Env,
                        begun: set<Group>, ended: set<Group>, thin: set<Group>, solid: set<Group>)
  {
    && LeastRun(es, t, env, begun, ended, thin, solid) && trap == Trap(es, t, env)
    && pos' <= |trap| && SpansOk(env', begun, ended, pos') && Ahead(|t|, env, pos', env', begun, ended)
  }

  /** The least run stands before a starred back-reference to an empty capture. */
  ghost predicate AtTrap(e: Elem, t: seq<byte>, env: Env) {
    e.BackMany? && Captured(t, env, e.g) == []
  }

  ghost predicate ChaseNext(es: seq<Elem>, t: seq<byte>, env: Env, trap: seq<byte>, q: nat, env': Env,
                            begun: set<Group>, ended: set<Group>, thin: set<Group>, solid: set<Group>)
    requires es != [] && !Dead(es[0])
  {
    var e := es[0];
    Chase(es[1..], t + LeastText(e, t, env), LeastEnv(e, t, env), trap, q, env', BegunAfter(e, begun),
          EndedAfter(e, ended), ThinAfter(e, thin, solid), SolidAfter(e, thin, solid))
  }

  lemma ChaseFixed(es: seq<Elem>, t: seq<byte>, env: Env, trap: seq<byte>, pos': nat, env': Env,
                   begun: set<Group>, ended: set<Group>, thin: set<Group>, solid: set<Group>)
    requires Chase(es, t, env, trap, pos', env', begun, ended, thin, solid)
    requires !Repeats(es[0]) && Consume(es[0], 0, trap, pos', env', -1).Some?
    ensures var l := Consume(es[0], 0, trap, pos', env', -1).value;
            ChaseNext(es, t, env, trap, l.end, l.env, begun, ended, thin, solid)
  {
    assert WellFormed([es[0]], begun, ended);
    LeastRunStep(es, t, env, begun, ended, thin, solid);
    AheadStep(es[0], t, env, pos', env', Consume(es[0], 0, trap, pos', env', -1).value.end, begun, ended);
  }

  lemma ChaseRepeat(es: seq<Elem>, t: seq<byte>, env: Env, trap: seq<byte>, pos': nat, env': Env,
                    begun: set<Group>, ended: set<Group>, thin: set<Group>, solid: set<Group>, k: nat)
    requires Chase(es, t, env, trap, pos', env', begun, ended, thin, solid)
    requires Repeats(es[0]) && !AtTrap(es[0], t, env)
    requires PlanFor(es[0], trap, pos', env', -1).Descend? && k <= PlanFor(es[0], trap, pos', env', -1).top
    ensures var p := PlanFor(es[0], trap, pos', env', -1);
            At(p.base, p.width, k) <= |trap|
            && ChaseNext(es, t, env, trap, At(p.base, p.width, k), env', begun, ended, thin, solid)
  {
    var p := PlanFor(es[0], trap, pos', env', -1);
    AtMonotone(p.base, p.width, 0, k);
    AtMonotone(p.base, p.width, k, p.top);
    assert WellFormed([es[0]], begun, ended);
    LeastRunStep(es, t, env, begun, ended, thin, solid);
    AheadStep(es[0], t, env, pos', env', At(p.base, p.width, k), begun, ended);
  }

  /** No attempt that is ahead of the least run can get past the trap. */
  lemma {:induction false} ChaseNeverHits(es: seq<Elem>, t: seq<byte>, env: Env, trap: seq<byte>, pos': nat, env': Env,
                                          begun: set<Group>, ended: set<Group>, thin: set<Group>, solid: set<Group>)
    requires Chase(es, t, env, trap, pos', env', begun, ended, thin, solid)
    ensures !Search(es, trap, pos', env', -1).Hit?
    decreases |es|, 1, 0
  {
    var e := es[0];
    if AtTrap(e, t, env) {
      assert env'.starts[e.g] == env'.ends[e.g];
    } else if Repeats(e) {
      var p := PlanFor(e, trap, pos', env', -1);
      if p.Descend? {
        TriesNeverHit(es, t, env, trap, pos', env', begun, ended, thin, solid, p.top);
      }
    } else {
      var l := Consume(e, 0, trap, pos', env', -1);
      if l.Some? {
        ChaseFixed(es, t, env, trap, pos', env', begun, ended, thin, solid);
        ChaseNeverHits(es[1..], t + LeastText(e, t, env), LeastEnv(e, t, env), trap, l.value.end, l.value.env,
                       BegunAfter(e, begun), EndedAfter(e, ended), ThinAfter(e, thin, solid),
                       SolidAfter(e, thin, solid));
      }
    }
  }

  lemma {:induction false} TriesNeverHit(es: seq<Elem>, t: seq<byte>, env: Env, trap: seq<byte>, pos': nat, env': Env,
                                         begun: set<Group>, ended: set<Group>, thin: set<Group>, solid: set<Group>,
                                         k: nat)
    requires Chase(es, t, env, trap, pos', env', begun, ended, thin, solid)
    requires Repeats(es[0]) && !AtTrap(es[0], t, env)
    requires PlanFor(es[0], trap, pos', env', -1).Descend? && k <= PlanFor(es[0], trap, pos', env', -1).top
    ensures var p := PlanFor(es[0], trap, pos', env', -1);
            At(p.base, p.width, k) <= |trap| && !TryDown(es[1..], trap, p.base, p.width, k, env', p.guard, -1).Hit?
    decreases |es|, 0, k + 1
  {
    AttemptNeverHits(es, t, env, trap, pos', env', begun, ended, thin, solid, k);
    if k == 0 {
    } else {
      TriesNeverHit(es, t, env, trap, pos', env', begun, ended, thin, solid, k - 1);
    }
  }

  lemma {:induction false} AttemptNeverHits(es: seq<Elem>, t: seq<byte>, env: Env, trap: seq<byte>, pos': nat,
                                            env': Env, begun: set<Group>, ended: set<Group>, thin: set<Group>,
                                            solid: set<Group>, k: nat)
    requires Chase(es, t, env, trap, pos', env', begun, ended, thin, solid)
    requires Repeats(es[0]) && !AtTrap(es[0], t, env)
    requires PlanFor(es[0], trap, pos', env', -1).Descend? && k <= PlanFor(es[0], trap, pos', env', -1).top
    ensures var p := PlanFor(es[0], trap, pos', env', -1);
            At(p.base, p.width, k) <= |trap| && !Search(es[1..], trap, At(p.base, p.width, k), env', -1).Hit?
    decreases |es|, 0, 0
  {
    var e, p := es[0], PlanFor(es[0], trap, pos', env', -1);
    ChaseRepeat(es, t, env, trap, pos', env', begun, ended, thin, solid, k);
    ChaseNeverHits(es[1..], t + LeastText(e, t, env), LeastEnv(e, t, env), trap, At(p.base, p.width, k), env',
                   BegunAfter(e, begun), EndedAfter(e, ended), ThinAfter(e, thin, solid), SolidAfter(e, thin, solid));
  }

  /** A capture within a prefix of the subject is the same in the whole subject. */
  lemma CapturedInPrefix(t: seq<byte>, whole: seq<byte>, env: Env, g: Group)
    requires t <= whole && 0 <= env.starts[g] <= env.ends[g] <= |t|
    ensures Captured(whole, env, g) == Captured(t, env, g)
  {
    assert whole[..|t|] == t;
    assert whole[..|t|][env.starts[g]..env.ends[g]] == whole[env.starts[g]..env.ends[g]];
  }

  /** On the trap text the least run can take its next element. */
  lemma LeastConsumes(es: seq<Elem>, t: seq<byte>, env: Env, trap: seq<byte>, begun: set<Group>, ended: set<Group>,
                      thin: set<Group>, solid: set<Group>)
    requires Chase(es, t, env, trap, |t|, env, begun, ended, thin, solid) && !AtTrap(es[0], t, env)
    ensures var e, t' := es[0], t + LeastText(es[0], t, env);
            && (!Repeats(e) ==> Consume(e, 0, trap, |t|, env, -1) == Some(Landing(|t'|, LeastEnv(e, t, env))))
            && (Repeats(e) ==> PlanFor(e, trap, |t|, env, -1).Descend? && PlanFor(e, trap, |t|, env, -1).base == |t'|)
  {
    var e, w := es[0], LeastText(es[0], t, env);
    LeastRunStep(es, t, env, begun, ended, thin, solid);
    assert t + w <= trap;
    assert trap[|t|..|t| + |w|] == w;
    match e
    case Many(a, lo, _) =>
      assert forall i | |t| <= i < |t| + lo :: trap[i] == w[i - |t|];
      StretchIsRun(a, trap, |t|, lo);
    case One(a) => assert trap[|t|] == w[0];
    case Back(g) => CapturedInPrefix(t, trap, env, g);
    case BackMany(g) => CapturedInPrefix(t, trap, env, g);
    case _ =>
  }

  /** The least run, and so the whole search, ends in the trap. */
  lemma {:induction false} LeastRunHangs(es: seq<Elem>, t: seq<byte>, env: Env, trap: seq<byte>, begun: set<Group>,
                                         ended: set<Group>, thin: set<Group>, solid: set<Group>)
    requires Chase(es, t, env, trap, |t|, env, begun, ended, thin, solid)
    ensures Search(es, trap, |t|, env, -1).Hang?
    decreases |es|, 1, 0
  {
    var e := es[0];
    if !AtTrap(e, t, env) {
      LeastConsumes(es, t, env, trap, begun, ended, thin, solid);
      if Repeats(e) {
        var p := PlanFor(e, trap, |t|, env, -1);
        TriesHang(es, t, env, trap, begun, ended, thin, solid, p.top);
      } else {
        ChaseFixed(es, t, env, trap, |t|, env, begun, ended, thin, solid);
        LeastRunHangs(es[1..], t + LeastText(e, t, env), LeastEnv(e, t, env), trap, BegunAfter(e, begun),
                      EndedAfter(e, ended), ThinAfter(e, thin, solid), SolidAfter(e, thin, solid));
      }
    }
  }

  lemma {:induction false} TriesHang(es: seq<Elem>, t: seq<byte>, env: Env, trap: seq<byte>, begun: set<Group>,
                                     ended: set<Group>, thin: set<Group>, solid: set<Group>, k: nat)
    requires Chase(es, t, env, trap, |t|, env, begun, ended, thin, solid)
    requires Repeats(es[0]) && !AtTrap(es[0], t, env)
    requires PlanFor(es[0], trap, |t|, env, -1).Descend? && k <= PlanFor(es[0], trap, |t|, env, -1).top
    ensures var p := PlanFor(es[0], trap, |t|, env, -1);
            At(p.base, p.width, k) <= |trap| && TryDown(es[1..], trap, p.base, p.width, k, env, p.guard, -1).Hang?
    decreases |es|, 0, k
  {
    var e, p := es[0], PlanFor(es[0], trap, |t|, env, -1);
    if k == 0 {
      LeastConsumes(es, t, env, trap, begun, ended, thin, solid);
      ChaseRepeat(es, t, env, trap, |t|, env, begun, ended, thin, solid, k);
      LeastRunHangs(es[1..], t + LeastText(e, t, env), LeastEnv(e, t, env), trap, BegunAfter(e, begun),
                    EndedAfter(e, ended), ThinAfter(e, thin, solid), SolidAfter(e, thin, solid));
    } else {
      AttemptNeverHits(es, t, env, trap, |t|, env, begun, ended, thin, solid, k);
      TriesHang(es, t, env, trap, begun, ended, thin, solid, k - 1);
    }
  }

  /** The trap is a subject: it holds no NUL. */
  lemma {:induction false} TrapHasNoNul(es: seq<Elem>, t: seq<byte>, env: Env, begun: set<Group>, ended: set<Group>)
    requires WellFormed(es, begun, ended) && NoNul(t)
    ensures NoNul(Trap(es, t, env))
    decreases |es|
  {
    if !(es == [] || Dead(es[0]) || AtTrap(es[0], t, env)) {
      var e := es[0];
      TrapHasNoNul(es[1..], t + LeastText(e, t, env), LeastEnv(e, t, env), BegunAfter(e, begun), EndedAfter(e, ended));
    }
  }

  /**
   If an end-of-line anchor can only come last, the static condition is exact: it holds if and only if no subject
   makes the search from its start hang.
   */
  lemma SolidIsExact(es: seq<Elem>, env: Env)
    requires WellFormed(es, {}, {}) && AnchorLast(es)
    ensures Solid(es, {}, {}) <==> forall t | NoNul(t) :: !Search(es, t, 0, env, -1).Hang?
  {
    if Solid(es, {}, {}) {
      forall t | NoNul(t)
        ensures !Search(es, t, 0, env, -1).Hang?
      {
        SolidNeverHangs(es, t, 0, env, -1, {}, {}, {}, {});
      }
    } else {
      TrapHasNoNul(es, [], env, {}, {});
      LeastRunHangs(es, [], env, Trap(es, [], env), {}, {}, {}, {});
    }
  }
}
