/**
 Captures kept in shared arrays behave like captures passed along by value, for programs whose groups are
 opened once, closed once and named by back-references only afterwards.
 */
module Captures {
  import opened Bytes
  import opened Program
  import opened Meaning

  /**
   The elements can follow a prefix that opened and closed the given groups: each group is opened once
   and then closed once, a back-reference names a closed group, and no element accepts the terminating NUL.
   */
  ghost predicate WellFormed(es: seq<Elem>, begun: set<Group>, ended: set<Group>)
    decreases |es|
  {
    ended <= begun &&
    if es == [] then true else
    match es[0]
    case One(a) => !a.Accepts(0) && WellFormed(es[1..], begun, ended)
    case Many(a, _, _) => !a.Accepts(0) && WellFormed(es[1..], begun, ended)
    case Open(g) => g !in begun && WellFormed(es[1..], begun + {g}, ended)
    case Close(g) => g in begun - ended && WellFormed(es[1..], begun, ended + {g})
    case Back(g) => g in ended && WellFormed(es[1..], begun, ended)
    case BackMany(g) => g in ended && WellFormed(es[1..], begun, ended)
    case Eol => WellFormed(es[1..], begun, ended)
    case Nop => WellFormed(es[1..], begun, ended)
  }

  /** The marks of opened and closed groups are spans of the subject that end at or before pos. */
  ghost predicate SpansOk(env: Env, begun: set<Group>, ended: set<Group>, pos: int) {
    && (forall g | g in begun :: 0 <= env.starts[g] <= pos)
    && (forall g | g in ended :: env.starts[g] <= env.ends[g] <= pos)
  }

  function Opens(es: seq<Elem>): set<Group> {
    if es == [] then {} else (if es[0].Open? then {es[0].g} else {}) + Opens(es[1..])
  }

  function Closes(es: seq<Elem>): set<Group> {
    if es == [] then {} else (if es[0].Close? then {es[0].g} else {}) + Closes(es[1..])
  }

  /** The two environments differ only in marks that running `es` writes. */
  ghost predicate SameExceptWrites(env: Env, env': Env, es: seq<Elem>) {
    && (forall g: Group | g !in Opens(es) :: env.starts[g] == env'.starts[g])
    && (forall g: Group | g !in Closes(es) :: env.ends[g] == env'.ends[g])
  }

  /** Everything that `es` writes, `whole` writes too. */
  ghost predicate WritesWithin(es: seq<Elem>, whole: seq<Elem>) {
    Opens(es) <= Opens(whole) && Closes(es) <= Closes(whole)
  }

  lemma WritesStep(es: seq<Elem>)
    requires es != []
    ensures WritesWithin(es[1..], es)
    ensures es[0].Open? ==> es[0].g in Opens(es)
    ensures es[0].Close? ==> es[0].g in Closes(es)
  {
  }

  lemma JoinWrites(env: Env, env': Env, env'': Env, es: seq<Elem>, whole: seq<Elem>)
    requires SameExceptWrites(env, env', whole) && SameExceptWrites(env', env'', es) && WritesWithin(es, whole)
    ensures SameExceptWrites(env, env'', whole)
  {
  }

  lemma WidenWrites(env: Env, env': Env, es: seq<Elem>, whole: seq<Elem>)
    requires SameExceptWrites(env, env', es) && WritesWithin(es, whole)
    ensures SameExceptWrites(env, env', whole)
  {
  }

  lemma {:induction false} WritesAreNew(es: seq<Elem>, begun: set<Group>, ended: set<Group>)
    requires WellFormed(es, begun, ended)
    ensures Opens(es) !! begun && Closes(es) !! ended
    decreases |es|
  {
    if es == [] {
    } else {
      match es[0]
      case Open(g) => WritesAreNew(es[1..], begun + {g}, ended);
      case Close(g) => WritesAreNew(es[1..], begun, ended + {g});
      case _ => WritesAreNew(es[1..], begun, ended);
    }
  }

  lemma ConsumeLeftovers(e: Elem, rest: seq<Elem>, t: seq<byte>, pos: nat, env: Env, env': Env, cut: int)
    requires pos <= |t| && SameExceptWrites(env, env', [e] + rest)
    requires (e.Back? || e.BackMany?) ==> e.g !in Opens(rest) && e.g !in Closes(rest)
    ensures Repeats(e) ==> PlanFor(e, t, pos, env, cut) == PlanFor(e, t, pos, env', cut)
    ensures var l, l' := Consume(e, 0, t, pos, env, cut), Consume(e, 0, t, pos, env', cut);
            || (l.None? && l'.None?)
            || (l.Some? && l'.Some? && l.value.end == l'.value.end && SameExceptWrites(l.value.env, l'.value.env, rest))
  {
    assert ([e] + rest)[1..] == rest;
  }

  /**
   Whatever an abandoned attempt left in the marks that `es` writes, the search for `es` is the same:
   same verdict, same end, same counts and the same captures in the end.
   */
  lemma {:induction false} LeftoversDoNotMatter(es: seq<Elem>, begun: set<Group>, ended: set<Group>, t: seq<byte>,
                                                pos: nat, env: Env, env': Env, cut: int)
    requires pos <= |t| && WellFormed(es, begun, ended)
    requires SameExceptWrites(env, env', es)
    ensures Search(es, t, pos, env, cut) == Search(es, t, pos, env', cut)
    decreases |es|, 0, 0
  {
    if es == [] {
      assert env.starts == env'.starts && env.ends == env'.ends;
    } else {
      var e, rest := es[0], es[1..];
      assert es == [e] + rest;
      WritesAreNew(es, begun, ended);
      ConsumeLeftovers(e, rest, t, pos, env, env', cut);
      if Repeats(e) {
        var p := PlanFor(e, t, pos, env, cut);
        if p.Descend? {
          LeftoversOfTries(rest, begun, ended, t, p.base, p.width, p.top, env, env', p.guard, cut);
        }
      } else {
        var l, l' := Consume(e, 0, t, pos, env, cut), Consume(e, 0, t, pos, env', cut);
        if l.Some? {
          LeftoversDoNotMatter(rest, BegunAfter(e, begun), EndedAfter(e, ended), t, l.value.end, l.value.env,
                               l'.value.env, cut);
        }
      }
    }
  }

  lemma {:induction false} LeftoversOfTries(es: seq<Elem>, begun: set<Group>, ended: set<Group>, t: seq<byte>,
                                            base: nat, width: nat, k: nat, env: Env, env': Env, guard: int, cut: int)
    requires At(base, width, k) <= |t| && WellFormed(es, begun, ended)
    requires SameExceptWrites(env, env', es)
    ensures TryDown(es, t, base, width, k, env, guard, cut) == TryDown(es, t, base, width, k, env', guard, cut)
    decreases |es|, 1, k
  {
    LeftoversDoNotMatter(es, begun, ended, t, At(base, width, k), env, env', cut);
    if k == 0 {
    } else {
      LeftoversOfTries(es, begun, ended, t, base, width, k - 1, env, env', guard, cut);
    }
  }

  /** The frame of a run: only the marks that the elements write can change. */
  lemma {:induction false} RunFrame(es: seq<Elem>, ks: seq<nat>, t: seq<byte>, pos: nat, env: Env, cut: int)
    requires pos <= |t| && Run(es, ks, t, pos, env, cut).Some?
    ensures SameExceptWrites(env, Run(es, ks, t, pos, env, cut).value.env, es)
    decreases |es|
  {
    if es == [] {
    } else {
      var k, ks' := if Repeats(es[0]) then ks[0] else 0, if Repeats(es[0]) then ks[1..] else ks;
      var l := Consume(es[0], k, t, pos, env, cut).value;
      RunFrame(es[1..], ks', t, l.end, l.env, cut);
    }
  }

  ghost function BegunAfter(e: Elem, begun: set<Group>): set<Group> {
    if e.Open? then begun + {e.g} else begun
  }

  ghost function EndedAfter(e: Elem, ended: set<Group>): set<Group> {
    if e.Close? then ended + {e.g} else ended
  }

  lemma ConsumeSpans(e: Elem, k: nat, t: seq<byte>, pos: nat, env: Env, cut: int, begun: set<Group>, ended: set<Group>)
    requires pos <= |t| && Consume(e, k, t, pos, env, cut).Some?
    requires WellFormed([e], begun, ended) && SpansOk(env, begun, ended, pos)
    ensures var l := Consume(e, k, t, pos, env, cut).value;
            SpansOk(l.env, BegunAfter(e, begun), EndedAfter(e, ended), l.end)
  {
  }

  /** After one element that does not repeat, the search goes on with the rest from where that element landed. */
  lemma FixedStep(es: seq<Elem>, t: seq<byte>, pos: nat, env: Env, cut: int, begun: set<Group>, ended: set<Group>)
    requires es != [] && !Repeats(es[0]) && pos <= |t|
    requires WellFormed(es, begun, ended) && SpansOk(env, begun, ended, pos)
    requires Consume(es[0], 0, t, pos, env, cut).Some?
    ensures var l := Consume(es[0], 0, t, pos, env, cut).value;
            && Search(es, t, pos, env, cut) == Search(es[1..], t, l.end, l.env, cut)
            && WellFormed(es[1..], BegunAfter(es[0], begun), EndedAfter(es[0], ended))
            && SpansOk(l.env, BegunAfter(es[0], begun), EndedAfter(es[0], ended), l.end)
            && SameExceptWrites(env, l.env, es)
  {
    WritesStep(es);
    assert WellFormed([es[0]], begun, ended);
    ConsumeSpans(es[0], 0, t, pos, env, cut, begun, ended);
  }

  /** When a run ends, every group opened or closed on the way holds a span that ends no later than the match. */
  lemma {:induction false} RunSpans(es: seq<Elem>, ks: seq<nat>, t: seq<byte>, pos: nat, env: Env, cut: int,
                                    begun: set<Group>, ended: set<Group>)
    requires pos <= |t| && Run(es, ks, t, pos, env, cut).Some?
    requires WellFormed(es, begun, ended) && SpansOk(env, begun, ended, pos)
    ensures var l := Run(es, ks, t, pos, env, cut).value;
            SpansOk(l.env, begun + Opens(es), ended + Closes(es), l.end)
    decreases |es|
  {
    if es == [] {
      assert begun + Opens(es) == begun && ended + Closes(es) == ended;
    } else {
      var k, ks' := if Repeats(es[0]) then ks[0] else 0, if Repeats(es[0]) then ks[1..] else ks;
      var l := Consume(es[0], k, t, pos, env, cut).value;
      assert WellFormed([es[0]], begun, ended);
      ConsumeSpans(es[0], k, t, pos, env, cut, begun, ended);
      RunSpans(es[1..], ks', t, l.end, l.env, cut, BegunAfter(es[0], begun), EndedAfter(es[0], ended));
      assert begun + Opens(es) == BegunAfter(es[0], begun) + Opens(es[1..]);
      assert ended + Closes(es) == EndedAfter(es[0], ended) + Closes(es[1..]);
    }
  }

  // ---------- Marks from before the search ----------

  /** The marks of the groups opened and closed so far are the same. */
  ghost predicate AgreeOn(env: Env, env': Env, begun: set<Group>, ended: set<Group>) {
    && (forall g | g in begun :: env.starts[g] == env'.starts[g])
    && (forall g | g in ended :: env.ends[g] == env'.ends[g])
  }

  /** Both fail, or both land at the same end with the same marks of the groups opened and closed by then. */
  ghost predicate SameLanding(l: Option<Landing>, l': Option<Landing>, begun: set<Group>, ended: set<Group>) {
    match l
    case None => l'.None?
    case Some(v) => l'.Some? && v.end == l'.value.end && AgreeOn(v.env, l'.value.env, begun, ended)
  }

  lemma ConsumeAgrees(e: Elem, k: nat, t: seq<byte>, pos: nat, env: Env, env': Env, cut: int,
                      begun: set<Group>, ended: set<Group>)
    requires pos <= |t| && WellFormed([e], begun, ended) && AgreeOn(env, env', begun, ended)
    ensures SameLanding(Consume(e, k, t, pos, env, cut), Consume(e, k, t, pos, env', cut),
                        BegunAfter(e, begun), EndedAfter(e, ended))
    ensures Repeats(e) ==> PlanFor(e, t, pos, env, cut) == PlanFor(e, t, pos, env', cut)
  {
    if e.Back? || e.BackMany? {
      assert Captured(t, env, e.g) == Captured(t, env', e.g);
    }
  }

  lemma WritesAfter(es: seq<Elem>, begun: set<Group>, ended: set<Group>)
    requires es != []
    ensures begun + Opens(es) == BegunAfter(es[0], begun) + Opens(es[1..])
    ensures ended + Closes(es) == EndedAfter(es[0], ended) + Closes(es[1..])
  {
  }

  /** A run depends on nothing but the marks of groups opened and closed before it. */
  lemma {:induction false} RunIgnoresHistory(es: seq<Elem>, ks: seq<nat>, t: seq<byte>, pos: nat, env: Env, env': Env,
                                             cut: int, begun: set<Group>, ended: set<Group>)
    requires pos <= |t| && WellFormed(es, begun, ended) && AgreeOn(env, env', begun, ended)
    ensures SameLanding(Run(es, ks, t, pos, env, cut), Run(es, ks, t, pos, env', cut),
                        begun + Opens(es), ended + Closes(es))
    decreases |es|
  {
    if es == [] {
      assert begun + Opens(es) == begun && ended + Closes(es) == ended;
    } else if !Repeats(es[0]) || ks != [] {
      var k, ks' := if Repeats(es[0]) then ks[0] else 0, if Repeats(es[0]) then ks[1..] else ks;
      var l, l' := Consume(es[0], k, t, pos, env, cut), Consume(es[0], k, t, pos, env', cut);
      assert WellFormed([es[0]], begun, ended);
      ConsumeAgrees(es[0], k, t, pos, env, env', cut, begun, ended);
      WritesAfter(es, begun, ended);
      if l.Some? {
        RunIgnoresHistory(es[1..], ks', t, l.value.end, l.value.env, l'.value.env, cut,
                          BegunAfter(es[0], begun), EndedAfter(es[0], ended));
      }
    }
  }

  /** The same verdict, and on success the same end, counts and marks of the groups opened and closed by then. */
  ghost predicate SameOutcome(r: Outcome, r': Outcome, begun: set<Group>, ended: set<Group>) {
    match r
    case Miss => r'.Miss?
    case Hang => r'.Hang?
    case Hit(end, env, picks) =>
      r'.Hit? && end == r'.end && picks == r'.picks && AgreeOn(env, r'.env, begun, ended)
  }

  /** A search depends on nothing but the marks of groups opened and closed before it. */
  lemma {:induction false} SearchIgnoresHistory(es: seq<Elem>, t: seq<byte>, pos: nat, env: Env, env': Env, cut: int,
                                                begun: set<Group>, ended: set<Group>)
    requires pos <= |t| && WellFormed(es, begun, ended) && AgreeOn(env, env', begun, ended)
    ensures SameOutcome(Search(es, t, pos, env, cut), Search(es, t, pos, env', cut),
                        begun + Opens(es), ended + Closes(es))
    decreases |es|, 0, 0
  {
    if es == [] {
      assert begun + Opens(es) == begun && ended + Closes(es) == ended;
    } else {
      var e, rest := es[0], es[1..];
      assert WellFormed([e], begun, ended);
      ConsumeAgrees(e, 0, t, pos, env, env', cut, begun, ended);
      WritesAfter(es, begun, ended);
      if Repeats(e) {
        var p := PlanFor(e, t, pos, env, cut);
        if p.Descend? {
          TriesIgnoreHistory(rest, t, p.base, p.width, p.top, env, env', p.guard, cut, begun, ended);
        }
      } else {
        var l, l' := Consume(e, 0, t, pos, env, cut), Consume(e, 0, t, pos, env', cut);
        if l.Some? {
          SearchIgnoresHistory(rest, t, l.value.end, l.value.env, l'.value.env, cut,
                               BegunAfter(e, begun), EndedAfter(e, ended));
        }
      }
    }
  }

  lemma {:induction false} TriesIgnoreHistory(es: seq<Elem>, t: seq<byte>, base: nat, width: nat, k: nat, env: Env,
                                              env': Env, guard: int, cut: int, begun: set<Group>, ended: set<Group>)
    requires At(base, width, k) <= |t| && WellFormed(es, begun, ended) && AgreeOn(env, env', begun, ended)
    ensures SameOutcome(TryDown(es, t, base, width, k, env, guard, cut),
                        TryDown(es, t, base, width, k, env', guard, cut), begun + Opens(es), ended + Closes(es))
    decreases |es|, 1, k
  {
    SearchIgnoresHistory(es, t, At(base, width, k), env, env', cut, begun, ended);
    if k == 0 {
    } else {
      TriesIgnoreHistory(es, t, base, width, k - 1, env, env', guard, cut, begun, ended);
    }
  }
}
