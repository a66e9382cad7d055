/** From a pattern to what `step` reports about a subject. */
module EndToEnd {
  import opened Bytes
  import opened Program
  import opened Meaning
  import opened Captures
  import opened Subject
  import opened Leftmost
  import opened Pattern
  import opened Compilation
  import opened Grouping
  import opened Termination
  import opened Matching
  import opened Regexp

  /**
   Accepted patterns whose code `advance` has arms for, with back-references to closed groups only, and
   starred ones only to groups that cannot be empty.
   */
  ghost predicate Usable(r: Parsed) {
    && r.Accept? && Supported(r.items)
    && RefsClosed(r.items, NO_GROUPS) && Solid(Elems(r.items), {}, {})
  }

  /** An accepted pattern is supported exactly when intervals stand only on one-character items, one on each. */
  lemma SupportedExactly(src: Input)
    requires src.p != [] && Parse(src).Accept?
    ensures Supported(Parse(src).items) <==>
            forall x | x in Parse(src).items :: |x.bounds| <= if OneChar(x.piece) then 1 else 0
  {
    ParseIsLegal(src, if src.p[0] == CARET then 1 else 0, 0, NO_GROUPS);
    forall x | x in Parse(src).items
      ensures SupportedItem(x) <==> |x.bounds| <= if OneChar(x.piece) then 1 else 0
    {
      assert Legal(x);
      assert x.bounds != [] ==> x.bounds[0] in x.bounds;
    }
  }

  /** The program of a supported pattern with back-references to closed groups only is well formed. */
  lemma AcceptedIsWellFormed(src: Input)
    requires src.p != [] && PatternString(src.p) && Parse(src).Accept?
    requires Supported(Parse(src).items) && RefsClosed(Parse(src).items, NO_GROUPS)
    ensures WellFormed(Elems(Parse(src).items), {}, {})
  {
    var i := if src.p[0] == CARET then 1 else 0;
    ParseIsLegal(src, i, 0, NO_GROUPS);
    ParseIsNulFree(src, i, 0, NO_GROUPS);
    assert Begun(NO_GROUPS) == {} && Ended(NO_GROUPS) == {};
    WellFormedExactly(Parse(src).items, NO_GROUPS);
  }

  lemma {:induction false} AnchorLastElems(items: seq<Item>)
    requires Supported(items) && forall i | 0 <= i < |items| - 1 :: !items[i].piece.EndOfLine?
    ensures AnchorLast(Elems(items))
    decreases |items|
  {
    if items == [] {
    } else {
      assert Elems(items)[1..] == Elems(items[1..]);
      AnchorLastElems(items[1..]);
    }
  }

  /**
   For an accepted pattern the condition on starred back-references is exact: it holds if and only if no subject
   makes `advance` at its start, or `step`, run for ever.
   */
  lemma UsableExactly(src: Input, env: Env, anchored: bool)
    requires src.p != [] && PatternString(src.p) && Parse(src).Accept?
    requires Supported(Parse(src).items) && RefsClosed(Parse(src).items, NO_GROUPS)
    ensures Usable(Parse(src)) <==>
            forall t | NoNul(t) :: !Search(Elems(Parse(src).items), t, 0, env, -1).Hang?
    ensures Usable(Parse(src)) <==>
            forall t | NoNul(t) :: !StepOutcome(anchored, Elems(Parse(src).items), t, 0, env, -1).NoReturn?
  {
    AcceptedIsWellFormed(src);
    ParseIsLegal(src, if src.p[0] == CARET then 1 else 0, 0, NO_GROUPS);
    AnchorLastElems(Parse(src).items);
    var es := Elems(Parse(src).items);
    SolidIsExact(es, env);
    if Usable(Parse(src)) {
      forall t
        ensures !StepOutcome(anchored, es, t, 0, env, -1).NoReturn?
      {
        SolidStepReturns(anchored, es, t, 0, env, -1);
      }
    } else {
      var t :| NoNul(t) && Search(es, t, 0, env, -1).Hang?;
      assert StepOutcome(anchored, es, t, 0, env, -1).NoReturn?;
    }
  }

  /** The program matches at some position where the search may start. */
  ghost predicate MatchesSomewhere(anchored: bool, es: seq<Elem>, t: seq<byte>, env: Env) {
    exists i: nat | i <= |t| && (anchored ==> i == 0) :: MatchesAt(es, t, i, env, -1)
  }

  /** f is the match at the least possible start with the greatest counts there, and its marks are spans within it. */
  ghost predicate LeftmostGreediest(anchored: bool, es: seq<Elem>, t: seq<byte>, env: Env, f: Found) {
    && Greediest(es, t, f, env, -1)
    && (anchored ==> f.start == 0)
    && (forall j: nat | j < f.start :: !MatchesAt(es, t, j, env, -1))
    && f.start <= f.end <= |t|
    && SpansOk(f.env, Opens(es), Closes(es), f.end)
  }

  /** There is only one such match, whatever the marks held before. */
  lemma LeftmostGreediestIsUnique(anchored: bool, es: seq<Elem>, t: seq<byte>, env: Env, f: Found, env': Env, f': Found)
    requires WellFormed(es, {}, {})
    requires LeftmostGreediest(anchored, es, t, env, f) && LeftmostGreediest(anchored, es, t, env', f')
    ensures SameFound(f, f', es)
  {
    assert MatchesAt(es, t, f.start, env, -1) && MatchesAt(es, t, f'.start, env', -1);
    MatchesIgnoreHistory(es, t, f.start, env, env', -1);
    MatchesIgnoreHistory(es, t, f'.start, env, env', -1);
    GreediestIsUnique(es, t, f, f', env, env', -1);
  }

  /** Where no starred back-reference can meet an empty capture, `step` returns on every subject. */
  lemma {:induction false} SolidStepReturns(anchored: bool, es: seq<Elem>, t: seq<byte>, i: nat, env: Env, cut: int)
    requires i <= |t| && WellFormed(es, {}, {}) && Solid(es, {}, {})
    ensures !StepOutcome(anchored, es, t, i, env, cut).NoReturn?
    decreases |t| - i
  {
    SolidNeverHangs(es, t, i, env, cut, {}, {}, {}, {});
    if !anchored && i < |t| {
      SolidStepReturns(anchored, es, t, i + 1, env, cut);
    }
  }

  /** What `step` computes, if it returns, is the leftmost, greediest match, and it finds one whenever there is one. */
  lemma StepFindsLeftmost(anchored: bool, es: seq<Elem>, t: seq<byte>, env: Env)
    requires WellFormed(es, {}, {}) && !StepOutcome(anchored, es, t, 0, env, -1).NoReturn?
    ensures var f := StepOutcome(anchored, es, t, 0, env, -1);
            && (f.Found? <==> MatchesSomewhere(anchored, es, t, env))
            && (f.Found? ==> LeftmostGreediest(anchored, es, t, env, f))
  {
    var f := StepOutcome(anchored, es, t, 0, env, -1);
    SearchIsGreediest(es, t, 0, env, -1);
    if !anchored {
      FirstMatchIsLeftmost(es, t, 0, env, -1);
    }
    if f.Found? {
      RunSpans(es, f.picks, t, f.start, env, -1, {}, {});
      assert {} + Opens(es) == Opens(es) && {} + Closes(es) == Closes(es);
    }
  }

  /** Marks that no call has set yet. */
  ghost function Unmarked(): Env { Env(seq(NBRA, _ => -1), seq(NBRA, _ => -1)) }

  /** Back-references name closed groups only, and looking for the pattern in t comes to an end. */
  ghost predicate Returns(r: Parsed, anchored: bool, t: seq<byte>) {
    && r.Accept? && Supported(r.items) && RefsClosed(r.items, NO_GROUPS)
    && !StepOutcome(anchored, Elems(r.items), t, 0, Unmarked(), -1).NoReturn?
  }

  /** A usable pattern returns on every subject. */
  lemma UsableReturns(src: Input, anchored: bool, t: seq<byte>)
    requires src.p != [] && PatternString(src.p) && Usable(Parse(src))
    ensures Returns(Parse(src), anchored, t)
  {
    AcceptedIsWellFormed(src);
    SolidStepReturns(anchored, Elems(Parse(src).items), t, 0, Unmarked(), -1);
  }

  /** The match that `step` reports for a pattern, as its items and the text say. */
  ghost predicate Reports(anchored: bool, items: seq<Item>, t: seq<byte>, loc1: int, loc2: int, env: Env) {
    exists q ::
      BestCuts(anchored, items, t, q) && loc1 == q[0] && loc2 == q[|items|] && MarksAre(items, q, |items|, env)
  }

  /** The match of the program is the match of the pattern. */
  lemma PatternMatches(anchored: bool, items: seq<Item>, t: seq<byte>, env: Env)
    requires Supported(items) && WellFormed(Elems(items), {}, {})
    ensures MatchesSomewhere(anchored, Elems(items), t, env) <==>
            exists q :: Cuts(items, t, q) && (anchored ==> q[0] == 0)
    ensures forall f: Found, env' | LeftmostGreediest(anchored, Elems(items), t, env, f) &&
                                    AgreeOn(env', f.env, Opens(Elems(items)), Closes(Elems(items))) ::
              Reports(anchored, items, t, f.start, f.end, env')
  {
    hide Takes, Run, WellFormed, MatchesAt;
    forall i: nat | i <= |t|
      ensures MatchesAt(Elems(items), t, i, env, -1) <==> exists q :: Cuts(items, t, q) && q[0] == i
    {
      MatchesExactly(items, t, i, env);
    }
    if MatchesSomewhere(anchored, Elems(items), t, env) {
      var i: nat :| i <= |t| && (anchored ==> i == 0) && MatchesAt(Elems(items), t, i, env, -1);
      var q :| Cuts(items, t, q) && q[0] == i;
    }
    if q :| Cuts(items, t, q) && (anchored ==> q[0] == 0) {
      assert MatchesAt(Elems(items), t, q[0], env, -1);
    }
    forall f: Found, env' | LeftmostGreediest(anchored, Elems(items), t, env, f) &&
                            AgreeOn(env', f.env, Opens(Elems(items)), Closes(Elems(items)))
      ensures Reports(anchored, items, t, f.start, f.end, env')
    {
      var q := GreediestIsBest(anchored, items, t, f, env);
      MarksAgree(items, q, f.env, env');
    }
  }

  /**
   Compile a pattern and look for it in a subject, as clients of regexp.h do. The answer is that of the pattern
   and the subject alone: the marks that earlier calls left behind do not come into it.
   */
  method CompileAndStep(re: Regexp, pattern: seq<byte>, seof: int, buf: array<byte>, ep: nat, endbuf: nat,
                        subject: seq<byte>)
    returns (c: Compiled, found: bool)
    requires re.Valid() && re.locs == -1 && CString(subject)
    requires ep < buf.Length && endbuf <= buf.Length && (endbuf == buf.Length ==> re.Fits(pattern, seof, ep, endbuf))
    requires PatternString(pattern) && pattern != [] && !re.Empty(pattern, seof)
    requires var want := Parse(Input(pattern, seof, re.sed, endbuf - ep));
             want.Accept? ==> Returns(want, pattern[0] == CARET, Text(subject))
    modifies re`nbra, re`circf, re`nodelim, re`loc1, re`loc2, re`low, re`size, re.braslist, re.braelist, buf
    ensures match Parse(Input(pattern, seof, re.sed, endbuf - ep))
            case Reject(code) => c == Failed(code) && !found
            case Accept(items, _, next, _) =>
              && c.Returned? && c.sp == next && Supported(items)
              && var anchored, es, t := pattern[0] == CARET, Elems(items), Text(subject);
                 && (found <==> MatchesSomewhere(anchored, es, t, Unmarked()))
                 && (found ==> exists f: Found ::
                       && LeftmostGreediest(anchored, es, t, Unmarked(), f)
                       && re.loc1 == f.start && re.loc2 == f.end
                       && AgreeOn(re.Marks(), f.env, Opens(es), Closes(es)))
                 && SameExceptWrites(old(re.Marks()), re.Marks(), es)
                 && (found <==> exists q :: Cuts(items, t, q) && (anchored ==> q[0] == 0))
                 && (found ==> Reports(anchored, items, t, re.loc1, re.loc2, re.Marks()))
  {
    hide LeftmostGreediest, MatchesSomewhere, StepOutcome, SameExceptWrites, AgreeOn, Cuts, Reports, Encode;
    ghost var src := Input(pattern, seof, re.sed, endbuf - ep);
    ghost var want, marks := Parse(src), re.Marks();
    found := false;
    c := re.Compile(pattern, buf, ep, endbuf, seof);
    if c.Failed? {
      return;
    }
    ghost var es, t := Elems(want.items), Text(subject);
    AcceptedIsWellFormed(src);
    assert Holds(buf[..], ep, Encode(want.items) + [CCEOF]);
    DecodeEncode(buf[..], ep, want.items);
    StepIgnoresHistory(re.circf, es, t, 0, marks, Unmarked(), -1);
    StepFindsLeftmost(re.circf, es, t, Unmarked());
    PatternMatches(re.circf, want.items, t, Unmarked());
    found := re.Step(subject, 0, buf[..], ep);
  }
}
