/** What `step` looks for: the first position of the subject where the program matches. */
module Leftmost {
  import opened Bytes
  import opened Program
  import opened Meaning
  import opened Backtracking
  import opened Captures

  datatype Found = NotFound | NoReturn | Found(start: nat, end: nat, env: Env, picks: seq<nat>)

  /** The outcome of a search that started at i. */
  function FoundAt(i: nat, r: Outcome): Found {
    match r
    case Miss => NotFound
    case Hang => NoReturn
    case Hit(end, env, picks) => Found(i, end, env, picks)
  }

  /** Search at i, i + 1, ... up to and including the end of the subject. */
  ghost function FirstMatch(es: seq<Elem>, t: seq<byte>, i: nat, env: Env, cut: int): Found
    requires i <= |t|
    decreases |t| - i
  {
    var r := Search(es, t, i, env, cut);
    if r.Miss? && i < |t| then FirstMatch(es, t, i + 1, env, cut) else FoundAt(i, r)
  }

  /** An anchored pattern is tried at i only. */
  ghost function StepOutcome(anchored: bool, es: seq<Elem>, t: seq<byte>, i: nat, env: Env, cut: int): Found
    requires i <= |t|
  {
    if anchored then FoundAt(i, Search(es, t, i, env, cut)) else FirstMatch(es, t, i, env, cut)
  }

  /** The marks that a scan leaves behind when it finds nothing. */
  ghost function ScanLeaves(es: seq<Elem>, t: seq<byte>, i: nat, env: Env, cut: int): Env
    requires i <= |t|
    decreases |t| - i
  {
    var left := Leaves(es, t, i, env, cut);
    if i < |t| then ScanLeaves(es, t, i + 1, left, cut) else left
  }

  ghost function StepLeaves(anchored: bool, es: seq<Elem>, t: seq<byte>, i: nat, env: Env, cut: int): Env
    requires i <= |t|
  {
    if anchored then Leaves(es, t, i, env, cut) else ScanLeaves(es, t, i, env, cut)
  }

  ghost predicate MatchesAt(es: seq<Elem>, t: seq<byte>, i: nat, env: Env, cut: int)
    requires i <= |t|
  {
    exists ks :: Run(es, ks, t, i, env, cut).Some?
  }

  /** The run that ends a successful search at `start`: it matches, and no count vector that matches is greater. */
  ghost predicate Greediest(es: seq<Elem>, t: seq<byte>, f: Found, env: Env, cut: int) {
    && f.Found? && f.start <= |t|
    && Run(es, f.picks, t, f.start, env, cut) == Some(Landing(f.end, f.env))
    && forall ks | Run(es, ks, t, f.start, env, cut).Some? :: LexLe(ks, f.picks)
  }

  lemma SearchIsGreediest(es: seq<Elem>, t: seq<byte>, i: nat, env: Env, cut: int)
    requires i <= |t|
    ensures Search(es, t, i, env, cut).Hit? ==> Greediest(es, t, FoundAt(i, Search(es, t, i, env, cut)), env, cut)
    ensures Search(es, t, i, env, cut).Hit? ==> MatchesAt(es, t, i, env, cut)
    ensures Search(es, t, i, env, cut).Miss? ==> !MatchesAt(es, t, i, env, cut)
  {
    var r := Search(es, t, i, env, cut);
    if r.Hit? {
      SearchSound(es, t, i, env, cut);
    }
    forall ks | Run(es, ks, t, i, env, cut).Some?
      ensures r.Hang? || (r.Hit? && LexLe(ks, r.picks))
    {
      SearchGreedy(es, ks, t, i, env, cut);
    }
  }

  /**
   The scan finds a match exactly when the program matches somewhere from i on; it then starts at the least
   such position and runs with the greatest count vector that matches there.
   */
  lemma {:induction false} FirstMatchIsLeftmost(es: seq<Elem>, t: seq<byte>, i: nat, env: Env, cut: int)
    requires i <= |t|
    requires !FirstMatch(es, t, i, env, cut).NoReturn?
    ensures var f := FirstMatch(es, t, i, env, cut);
            && (f.Found? <==> exists j: nat | i <= j <= |t| :: MatchesAt(es, t, j, env, cut))
            && (f.Found? ==> i <= f.start && Greediest(es, t, f, env, cut)
                             && forall j: nat | i <= j < f.start :: !MatchesAt(es, t, j, env, cut))
    decreases |t| - i
  {
    SearchIsGreediest(es, t, i, env, cut);
    if Search(es, t, i, env, cut).Miss? && i < |t| {
      FirstMatchIsLeftmost(es, t, i + 1, env, cut);
    }
  }

  /** Leftovers of attempts at earlier positions do not change what the scan finds. */
  lemma {:induction false} ScanLeftovers(es: seq<Elem>, t: seq<byte>, i: nat, env: Env, env': Env, cut: int)
    requires i <= |t| && WellFormed(es, {}, {}) && SameExceptWrites(env, env', es)
    ensures FirstMatch(es, t, i, env, cut) == FirstMatch(es, t, i, env', cut)
    decreases |t| - i
  {
    LeftoversDoNotMatter(es, {}, {}, t, i, env, env', cut);
    if i < |t| {
      ScanLeftovers(es, t, i + 1, env, env', cut);
    }
  }

  /** A program that starts with a plain literal can only match where that literal stands. */
  lemma LiteralFirst(prog: seq<byte>, ep: nat)
    requires Decode(prog, ep).Some? && prog[ep] == CCHR
    ensures ep + 1 < |prog| && Decode(prog, ep).value != []
    ensures Decode(prog, ep).value[0] == One(Literal(prog[ep + 1]))
  {
    DecodeHead(prog, ep);
  }

  lemma {:induction false} LexAntisymmetric(a: seq<nat>, b: seq<nat>)
    requires LexLe(a, b) && LexLe(b, a)
    ensures a == b
    decreases |a|
  {
    if a == [] {
    } else {
      LexAntisymmetric(a[1..], b[1..]);
      assert a == [a[0]] + a[1..] && b == [b[0]] + b[1..];
    }
  }

  /**
   There is only one greediest match from a given start. Its end, its counts and the marks of the groups it
   opens and closes are determined by program and subject, whatever the marks held before.
   */
  lemma GreediestIsUnique(es: seq<Elem>, t: seq<byte>, f: Found, f': Found, env: Env, env': Env, cut: int)
    requires Greediest(es, t, f, env, cut) && Greediest(es, t, f', env', cut) && f.start == f'.start
    ensures WellFormed(es, {}, {}) ==> SameFound(f, f', es)
    ensures env == env' ==> f == f'
  {
    if WellFormed(es, {}, {}) {
      HistoryOfRuns(es, f.picks, t, f.start, env, env', cut);
      HistoryOfRuns(es, f'.picks, t, f.start, env, env', cut);
      LexAntisymmetric(f.picks, f'.picks);
    } else if env == env' {
      LexAntisymmetric(f.picks, f'.picks);
    }
  }

  /** The same match, with the same marks of all groups that es opens and closes. */
  ghost predicate SameFound(f: Found, f': Found, es: seq<Elem>) {
    match f
    case NotFound => f'.NotFound?
    case NoReturn => f'.NoReturn?
    case Found(start, end, env, picks) =>
      && f'.Found? && start == f'.start && end == f'.end && picks == f'.picks
      && AgreeOn(env, f'.env, Opens(es), Closes(es))
  }

  lemma HistoryOfRuns(es: seq<Elem>, ks: seq<nat>, t: seq<byte>, i: nat, env: Env, env': Env, cut: int)
    requires i <= |t| && WellFormed(es, {}, {})
    ensures SameLanding(Run(es, ks, t, i, env, cut), Run(es, ks, t, i, env', cut), Opens(es), Closes(es))
  {
    RunIgnoresHistory(es, ks, t, i, env, env', cut, {}, {});
    assert {} + Opens(es) == Opens(es) && {} + Closes(es) == Closes(es);
  }

  /** Where a program matches does not depend on the marks left by earlier calls. */
  lemma MatchesIgnoreHistory(es: seq<Elem>, t: seq<byte>, i: nat, env: Env, env': Env, cut: int)
    requires i <= |t| && WellFormed(es, {}, {})
    ensures MatchesAt(es, t, i, env, cut) <==> MatchesAt(es, t, i, env', cut)
  {
    forall ks: seq<nat>
      ensures Run(es, ks, t, i, env, cut).Some? <==> Run(es, ks, t, i, env', cut).Some?
    {
      HistoryOfRuns(es, ks, t, i, env, env', cut);
    }
  }

  /** What `step` finds does not depend on the marks left by earlier calls, nor does whether it returns. */
  lemma {:induction false} StepIgnoresHistory(anchored: bool, es: seq<Elem>, t: seq<byte>, i: nat, env: Env, env': Env,
                                              cut: int)
    requires i <= |t| && WellFormed(es, {}, {})
    ensures SameFound(StepOutcome(anchored, es, t, i, env, cut), StepOutcome(anchored, es, t, i, env', cut), es)
    decreases |t| - i
  {
    SearchIgnoresHistory(es, t, i, env, env', cut, {}, {});
    assert {} + Opens(es) == Opens(es) && {} + Closes(es) == Closes(es);
    if !anchored && i < |t| {
      StepIgnoresHistory(anchored, es, t, i + 1, env, env', cut);
    }
  }
}
