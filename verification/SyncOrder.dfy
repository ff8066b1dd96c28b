/** When the order in which the jurisdiction sync takes its nodes matters. A run is a sequence of turns;
    it may take any ready node next, and a code goes to the first node that asks for it. */
module SyncOrder {
  import opened Options
  import opened SlugCodes
  import opened SyncJob
  import opened SyncSteps

  // ---- runs, turn by turn

  /** The nodes that have had their turn, those of them that found their code taken by this run, and the
      units that stand. */
  datatype Progress = Progress(done: set<Ext>, lost: set<Ext>, tree: Units)

  function Begun(job: Job): Progress {
    Progress({}, {}, job.standing)
  }

  /** The job as it has turned out so far. */
  function SoFar(job: Job, s: Progress): Job {
    job.(lost := s.lost)
  }

  predicate May(job: Job, s: Progress, e: Ext)
    requires WellFormed(job)
  {
    e in job.nodes && e !in s.done && Ready(SoFar(job, s), s.done, e)
  }

  predicate Over(job: Job, s: Progress)
    requires WellFormed(job)
  {
    forall e {:trigger May(job, s, e)} :: e in job.nodes ==> !May(job, s, e)
  }

  /** What comes of a node's turn: it makes no unit whatever the codes, it finds its code taken, or it
      makes its unit. */
  datatype Result = NoUnit | CodeTaken | Made(unit: Unit, at: Stand)

  function ResultOf(job: Job, s: Progress, e: Ext): Result
    requires WellFormed(job) && May(job, s, e)
  {
    if !MakesUnit(SoFar(job, s), e) then NoUnit
    else if IsTaken(s.tree, CodeOf(job, e)) then CodeTaken
    else Made(job.calls[e].unit, Stand(CodeOf(job, e), ParentUnit(SoFar(job, s), s.done, e)))
  }

  function With(s: Progress, e: Ext, r: Result): Progress {
    Progress(s.done + {e}, if r.CodeTaken? then s.lost + {e} else s.lost, if r.Made? then s.tree[r.unit := r.at] else s.tree)
  }

  function Turn(job: Job, s: Progress, e: Ext): Progress
    requires WellFormed(job) && May(job, s, e)
  {
    With(s, e, ResultOf(job, s, e))
  }

  ghost predicate IsOrder(job: Job, s: Progress, turns: seq<Ext>)
    requires WellFormed(job)
    decreases |turns|
  {
    turns == [] || (May(job, s, turns[0]) && IsOrder(job, Turn(job, s, turns[0]), turns[1..]))
  }

  ghost function After(job: Job, s: Progress, turns: seq<Ext>): Progress
    requires WellFormed(job) && IsOrder(job, s, turns)
    decreases |turns|
  {
    if turns == [] then s else After(job, Turn(job, s, turns[0]), turns[1..])
  }

  ghost predicate Reached(job: Job, s: Progress)
    requires WellFormed(job)
  {
    exists turns :: IsOrder(job, Begun(job), turns) && After(job, Begun(job), turns) == s
  }

  ghost predicate IsEnd(job: Job, s: Progress)
    requires WellFormed(job)
  {
    Reached(job, s) && Over(job, s)
  }

  lemma {:induction false} OneMoreTurn(job: Job, s: Progress, turns: seq<Ext>, e: Ext)
    requires WellFormed(job) && IsOrder(job, s, turns) && May(job, After(job, s, turns), e)
    ensures IsOrder(job, s, turns + [e]) && After(job, s, turns + [e]) == Turn(job, After(job, s, turns), e)
    decreases |turns|
  {
    if turns == [] {
      assert (turns + [e])[1..] == [];
    } else {
      OneMoreTurn(job, Turn(job, s, turns[0]), turns[1..], e);
      assert (turns + [e])[1..] == turns[1..] + [e];
    }
  }

  lemma ReachedOnward(job: Job, s: Progress, e: Ext)
    requires WellFormed(job) && Reached(job, s) && May(job, s, e)
    ensures Reached(job, Turn(job, s, e))
  {
    var turns :| IsOrder(job, Begun(job), turns) && After(job, Begun(job), turns) == s;
    OneMoreTurn(job, Begun(job), turns, e);
  }

  /** The turn in the terms of the tables' lemmas. */
  lemma TurnIs(job: Job, s: Progress, e: Ext)
    requires WellFormed(job) && May(job, s, e)
    ensures var g := Losing(SoFar(job, s), s.tree, e);
            && g == SoFar(job, Turn(job, s, e)) && Ready(g, s.done, e)
            && Turn(job, s, e).tree == WithUnit(g, s.done, s.tree, e)
  {
    LosingKeepsReadyHere(SoFar(job, s), s.done, s.tree, e);
  }

  lemma LosingKeepsReadyHere(g: Job, done: set<Ext>, tree: Units, e: Ext)
    requires WellFormed(g) && e in g.nodes && e !in done && Ready(g, done, e)
    ensures Ready(Losing(g, tree, e), done, e) && ParentUnit(Losing(g, tree, e), done, e) == ParentUnit(g, done, e)
  {
    var p := g.nodes[e].parent;
    if p.Some? && p.value in done && p.value in g.nodes {
      LosingAgrees(g, tree, e, p.value);
    }
  }

  lemma BegunIsReached(job: Job)
    requires WellFormed(job)
    ensures Reached(job, Begun(job))
  {
    assert IsOrder(job, Begun(job), []) && After(job, Begun(job), []) == Begun(job);
  }

  /** Where a run has got to, in terms of the job as it has turned out. */
  ghost predicate IsAt(job: Job, g: Job, done: set<Ext>, tree: Units)
    requires WellFormed(job)
  {
    g == job.(lost := g.lost) && Reached(job, Progress(done, g.lost, tree))
  }

  lemma AtAfterTurn(job: Job, g: Job, done: set<Ext>, tree: Units, e: Ext)
    requires WellFormed(job) && IsAt(job, g, done, tree) && e in job.nodes && e !in done && Ready(g, done, e)
    ensures Ready(Losing(g, tree, e), done, e)
    ensures IsAt(job, Losing(g, tree, e), done + {e}, WithUnit(Losing(g, tree, e), done, tree, e))
  {
    var s := Progress(done, g.lost, tree);
    assert SoFar(job, s) == g;
    TurnIs(job, s, e);
    ReachedOnward(job, s, e);
  }

  lemma AtEnd(job: Job, g: Job, w: Work, tree: Units)
    requires WellFormed(job) && IsAt(job, g, Done(g, w), tree) && w.remaining <= job.nodes.Keys
    requires w.remaining == {} || Closed(g, Done(g, w))
    ensures IsEnd(job, Progress(Done(g, w), g.lost, tree))
  {
    var s := Progress(Done(g, w), g.lost, tree);
    assert SoFar(job, s) == g;
    forall e | e in job.nodes
      ensures !May(job, s, e)
    {
      if w.remaining != {} && e !in s.done {
        assert !Ready(g, Done(g, w), e);
      }
    }
  }

  // ---- what every run keeps

  /** Why a node could make its unit: one of the given job's nodes under each other, from one whose parent
      has a unit already, all of which can make a unit under a code of their own, and record it. */
  predicate IsLine(job: Job, c: seq<Ext>)
    requires WellFormed(job)
  {
    |c| > 0 && AllFollow(job, c) && AllApart(job, c)
  }

  predicate AllFollow(job: Job, c: seq<Ext>)
    requires WellFormed(job)
  {
    forall i {:trigger Before(c, i)} :: 0 <= i < |c| ==> CanFollow(job, Before(c, i), c[i])
  }

  predicate AllApart(job: Job, c: seq<Ext>) {
    forall i, j {:trigger Apart(job, c, i, j)} :: 0 <= i < j < |c| ==> Apart(job, c, i, j)
  }

  function Before(c: seq<Ext>, i: nat): Option<Ext>
    requires i < |c|
  {
    if i == 0 then None else Some(c[i-1])
  }

  predicate CanFollow(job: Job, before: Option<Ext>, e: Ext)
    requires WellFormed(job)
  {
    && e in job.nodes && WouldMake(job, e)
    && var p := job.nodes[e].parent;
       match before
       case None => p.None? || CreatedIn(job.before, p.value)
       case Some(b) => p == before && b in job.nodes && Resolves(job.(lost := {}), b)
  }

  predicate Apart(job: Job, c: seq<Ext>, i: nat, j: nat)
    requires i < |c| && j < |c|
  {
    CodeAt(job, c[i]) != CodeAt(job, c[j])
  }

  function CodeAt(job: Job, e: Ext): Option<string> {
    if e in job.nodes then Some(CodeOf(job, e)) else None
  }

  function Last(c: seq<Ext>): Ext
    requires |c| > 0
  {
    c[|c|-1]
  }

  /** The nodes on the way to e have made their units in this run. */
  ghost predicate HasLine(job: Job, s: Progress, e: Ext)
    requires WellFormed(job)
  {
    exists c :: IsLineOf(job, s, c, e)
  }

  predicate IsLineOf(job: Job, s: Progress, c: seq<Ext>, e: Ext)
    requires WellFormed(job)
  {
    IsLine(job, c) && Last(c) == e && forall x :: x in c ==> x in s.done && x in job.nodes && MakesUnit(SoFar(job, s), x)
  }

  predicate MadeApart(job: Job, s: Progress)
    requires WellFormed(job) && s.done <= job.nodes.Keys
  {
    forall e, f {:trigger MadeAlike(job, s, e, f)} :: e in s.done && f in s.done && MadeAlike(job, s, e, f) ==> e == f
  }

  predicate MadeAlike(job: Job, s: Progress, e: Ext, f: Ext)
    requires WellFormed(job) && e in job.nodes && f in job.nodes
  {
    MakesUnit(SoFar(job, s), e) && MakesUnit(SoFar(job, s), f) && CodeOf(job, e) == CodeOf(job, f)
  }

  ghost predicate ProgressOk(job: Job, s: Progress)
    requires WellFormed(job)
  {
    && s.done <= job.nodes.Keys && s.lost <= s.done
    && Placed(SoFar(job, s), s.done, s.tree) && Grown(SoFar(job, s), s.done, s.tree) && MadeApart(job, s)
    && forall e {:trigger HasLine(job, s, e)} :: e in s.done && MakesUnit(SoFar(job, s), e) ==> HasLine(job, s, e)
  }

  /** What a node did at its turn it has done for good. */
  lemma TurnAgrees(job: Job, s: Progress, e: Ext, f: Ext)
    requires WellFormed(job) && May(job, s, e) && f in job.nodes && f != e
    ensures Agree(SoFar(job, s), SoFar(job, Turn(job, s, e)), f)
  {}

  lemma TurnKeepsTree(job: Job, s: Progress, e: Ext)
    requires WellFormed(job) && UnitsAreNew(job) && ProgressOk(job, s) && May(job, s, e)
    ensures var t := Turn(job, s, e); Placed(SoFar(job, t), t.done, t.tree) && Grown(SoFar(job, t), t.done, t.tree)
  {
    var g := Losing(SoFar(job, s), s.tree, e);
    TurnIs(job, s, e);
    LosingKeepsPlaced(SoFar(job, s), s.done, s.tree, e);
    LosingKeepsGrown(SoFar(job, s), s.done, s.tree, e);
    PlacedAdvance(g, s.done, s.tree, e);
    GrownAdvance(g, s.done, s.tree, e);
  }

  /** A unit made has a code that nobody had. */
  lemma MadeHasCode(job: Job, s: Progress, f: Ext)
    requires WellFormed(job) && ProgressOk(job, s) && f in s.done && MakesUnit(SoFar(job, s), f)
    ensures IsTaken(s.tree, CodeOf(job, f))
  {
    assert IsPlaced(SoFar(job, s), s.done, s.tree, f);
    assert s.tree[job.calls[f].unit].code == CodeOf(job, f);
  }

  lemma TurnKeepsApart(job: Job, s: Progress, e: Ext)
    requires WellFormed(job) && ProgressOk(job, s) && May(job, s, e)
    ensures MadeApart(job, Turn(job, s, e))
  {
    var t := Turn(job, s, e);
    forall x, f | x in t.done && f in t.done && MadeAlike(job, t, x, f)
      ensures x == f
    {
      if x != e { TurnAgrees(job, s, e, x); }
      if f != e { TurnAgrees(job, s, e, f); }
      if x != e && f != e {
        assert MadeAlike(job, s, x, f);
      } else if x != f {
        MadeHasCode(job, s, if x == e then f else x);
      }
    }
  }

  lemma LineStays(job: Job, s: Progress, e: Ext, c: seq<Ext>, f: Ext)
    requires WellFormed(job) && ProgressOk(job, s) && May(job, s, e) && IsLineOf(job, s, c, f)
    ensures IsLineOf(job, Turn(job, s, e), c, f)
  {
    forall x | x in c
      ensures MakesUnit(SoFar(job, Turn(job, s, e)), x)
    {
      TurnAgrees(job, s, e, x);
    }
  }

  /** The line to a node whose turn it is and that may have its code. */
  lemma LineToNext(job: Job, s: Progress, e: Ext) returns (c: seq<Ext>)
    requires WellFormed(job) && job.lost == {} && ProgressOk(job, s) && May(job, s, e)
    requires MakesUnit(SoFar(job, s), e) && !IsTaken(s.tree, CodeOf(job, e))
    ensures IsLine(job, c) && Last(c) == e && forall i :: 0 <= i < |c| - 1 ==> c[i] in s.done && MakesUnit(SoFar(job, s), c[i])
  {
    var p := job.nodes[e].parent;
    if p.None? || CreatedIn(job.before, p.value) {
      c := [e];
    } else {
      assert MakesUnit(SoFar(job, s), p.value) && HasLine(job, s, p.value);
      var line :| IsLineOf(job, s, line, p.value);
      c := line + [e];
      LineGrows(job, s, line, e);
    }
  }

  lemma LineGrows(job: Job, s: Progress, line: seq<Ext>, e: Ext)
    requires WellFormed(job) && job.lost == {} && ProgressOk(job, s) && May(job, s, e)
    requires MakesUnit(SoFar(job, s), e) && !IsTaken(s.tree, CodeOf(job, e))
    requires job.nodes[e].parent.Some? && !CreatedIn(job.before, job.nodes[e].parent.value)
    requires IsLineOf(job, s, line, job.nodes[e].parent.value)
    ensures IsLine(job, line + [e])
  {
    LineCodes(job, s, line, CodeOf(job, e));
    assert MakesUnit(SoFar(job, s), Last(line)) && Resolves(SoFar(job, s), Last(line));
    LinePlus(job, line, e);
  }

  lemma LinePlus(job: Job, line: seq<Ext>, e: Ext)
    requires WellFormed(job) && IsLine(job, line) && CanFollow(job, Some(Last(line)), e)
    requires forall i :: 0 <= i < |line| ==> CodeAt(job, line[i]) != CodeAt(job, e)
    ensures IsLine(job, line + [e])
  {
    var c := line + [e];
    forall i | 0 <= i < |c|
      ensures CanFollow(job, Before(c, i), c[i])
    {
      if i < |line| {
        assert CanFollow(job, Before(line, i), line[i]);
        assert Before(c, i) == Before(line, i);
      }
    }
    forall i, j | 0 <= i < j < |c|
      ensures Apart(job, c, i, j)
    {
      if j < |line| {
        assert Apart(job, line, i, j);
      }
    }
  }

  lemma LineCodes(job: Job, s: Progress, line: seq<Ext>, code: string)
    requires WellFormed(job) && ProgressOk(job, s) && !IsTaken(s.tree, code)
    requires forall x :: x in line ==> x in s.done && MakesUnit(SoFar(job, s), x)
    ensures forall i :: 0 <= i < |line| ==> CodeAt(job, line[i]) != Some(code)
  {
    forall i | 0 <= i < |line|
      ensures CodeAt(job, line[i]) != Some(code)
    {
      assert line[i] in line;
      MadeHasCode(job, s, line[i]);
    }
  }

  lemma TurnKeepsLines(job: Job, s: Progress, e: Ext)
    requires WellFormed(job) && job.lost == {} && ProgressOk(job, s) && May(job, s, e)
    ensures var t := Turn(job, s, e); forall f {:trigger HasLine(job, t, f)} :: f in t.done && MakesUnit(SoFar(job, t), f) ==> HasLine(job, t, f)
  {
    var t := Turn(job, s, e);
    forall f | f in t.done && MakesUnit(SoFar(job, t), f)
      ensures HasLine(job, t, f)
    {
      if f == e {
        var c := LineToNext(job, s, e);
        forall x | x in c
          ensures x in t.done && MakesUnit(SoFar(job, t), x)
        {
          if x != e { TurnAgrees(job, s, e, x); }
        }
        assert IsLineOf(job, t, c, e);
      } else {
        TurnAgrees(job, s, e, f);
        assert HasLine(job, s, f);
        var c :| IsLineOf(job, s, c, f);
        LineStays(job, s, e, c, f);
      }
    }
  }

  lemma TurnKeepsOk(job: Job, s: Progress, e: Ext)
    requires WellFormed(job) && UnitsAreNew(job) && job.lost == {} && ProgressOk(job, s) && May(job, s, e)
    ensures ProgressOk(job, Turn(job, s, e))
  {
    TurnKeepsTree(job, s, e);
    TurnKeepsApart(job, s, e);
    TurnKeepsLines(job, s, e);
  }

  lemma {:induction false} OrderKeepsOk(job: Job, s: Progress, turns: seq<Ext>)
    requires WellFormed(job) && UnitsAreNew(job) && job.lost == {} && ProgressOk(job, s) && IsOrder(job, s, turns)
    ensures ProgressOk(job, After(job, s, turns))
    decreases |turns|
  {
    if turns == [] {
    } else {
      TurnKeepsOk(job, s, turns[0]);
      OrderKeepsOk(job, Turn(job, s, turns[0]), turns[1..]);
    }
  }

  lemma ReachedOk(job: Job, s: Progress)
    requires WellFormed(job) && UnitsAreNew(job) && job.lost == {} && Reached(job, s)
    ensures ProgressOk(job, s)
  {
    var turns :| IsOrder(job, Begun(job), turns) && After(job, Begun(job), turns) == s;
    OrderKeepsOk(job, Begun(job), turns);
  }

  // ---- turns that do not contest a code commute

  /** Both nodes are ready to make a unit under the one code, which is free. */
  ghost predicate Contest(job: Job, s: Progress, e: Ext, f: Ext)
    requires WellFormed(job)
  {
    && e != f && May(job, s, e) && May(job, s, f)
    && MakesUnit(SoFar(job, s), e) && MakesUnit(SoFar(job, s), f)
    && CodeOf(job, e) == CodeOf(job, f) && !IsTaken(s.tree, CodeOf(job, e))
  }

  lemma StaysReady(job: Job, s: Progress, e: Ext, f: Ext)
    requires WellFormed(job) && s.done <= job.nodes.Keys && May(job, s, e) && May(job, s, f) && e != f
    ensures var t := Turn(job, s, e);
            && May(job, t, f) && MakesUnit(SoFar(job, t), f) == MakesUnit(SoFar(job, s), f)
            && ParentUnit(SoFar(job, t), t.done, f) == ParentUnit(SoFar(job, s), s.done, f)
  {
    TurnAgrees(job, s, e, f);
    var p := job.nodes[f].parent;
    if p.Some? && !CreatedIn(job.before, p.value) {
      TurnAgrees(job, s, e, p.value);
    }
  }

  lemma NewCode(tree: Units, u: Unit, at: Stand, code: string)
    requires u !in tree
    ensures IsTaken(tree[u := at], code) <==> IsTaken(tree, code) || at.code == code
  {
    assert u in tree[u := at];
    if IsTaken(tree, code) {
      var v :| v in tree && tree[v].code == code;
      assert v in tree[u := at] && tree[u := at][v].code == code;
    }
  }

  /** One node's turn makes no difference to whether another gets its unit. */
  lemma CodeStays(job: Job, s: Progress, e: Ext, f: Ext)
    requires WellFormed(job) && UnitsAreNew(job) && ProgressOk(job, s)
    requires e != f && May(job, s, e) && May(job, s, f) && !Contest(job, s, e, f) && MakesUnit(SoFar(job, s), f)
    ensures IsTaken(Turn(job, s, e).tree, CodeOf(job, f)) == IsTaken(s.tree, CodeOf(job, f))
  {
    UnmadeUnitIsNew(SoFar(job, s), s.done, s.tree, e);
    if MakesUnit(SoFar(job, s), e) && !IsTaken(s.tree, CodeOf(job, e)) {
      NewCode(s.tree, job.calls[e].unit, Turn(job, s, e).tree[job.calls[e].unit], CodeOf(job, f));
    }
  }

  lemma ResultStays(job: Job, s: Progress, e: Ext, f: Ext)
    requires WellFormed(job) && UnitsAreNew(job) && ProgressOk(job, s)
    requires e != f && May(job, s, e) && May(job, s, f) && !Contest(job, s, e, f)
    ensures May(job, Turn(job, s, e), f) && ResultOf(job, Turn(job, s, e), f) == ResultOf(job, s, f)
  {
    StaysReady(job, s, e, f);
    if MakesUnit(SoFar(job, s), f) { CodeStays(job, s, e, f); }
  }

  lemma ResultsCommute(s: Progress, e: Ext, r: Result, f: Ext, q: Result)
    requires r.Made? && q.Made? ==> r.unit != q.unit
    ensures With(With(s, e, r), f, q) == With(With(s, f, q), e, r)
  {}

  lemma TurnsCommute(job: Job, s: Progress, e: Ext, f: Ext)
    requires WellFormed(job) && UnitsAreNew(job) && ProgressOk(job, s)
    requires e != f && May(job, s, e) && May(job, s, f) && !Contest(job, s, e, f)
    ensures May(job, Turn(job, s, e), f) && May(job, Turn(job, s, f), e)
    ensures Turn(job, Turn(job, s, e), f) == Turn(job, Turn(job, s, f), e)
  {
    ResultStays(job, s, e, f);
    ResultStays(job, s, f, e);
    ResultsCommute(s, e, ResultOf(job, s, e), f, ResultOf(job, s, f));
  }

  ghost predicate NoContest(job: Job, s: Progress)
    requires WellFormed(job)
  {
    forall e, f :: !Contest(job, s, e, f)
  }

  ghost predicate NeverContests(job: Job, s: Progress)
    requires WellFormed(job)
  {
    forall turns {:trigger IsOrder(job, s, turns)} :: IsOrder(job, s, turns) ==> NoContest(job, After(job, s, turns))
  }

  lemma FirstTurn(job: Job, s: Progress, e: Ext, turns: seq<Ext>)
    requires WellFormed(job) && May(job, s, e) && IsOrder(job, Turn(job, s, e), turns)
    ensures IsOrder(job, s, [e] + turns) && After(job, s, [e] + turns) == After(job, Turn(job, s, e), turns)
  {
    assert ([e] + turns)[1..] == turns;
  }

  lemma NeverContestsNow(job: Job, s: Progress)
    requires WellFormed(job) && NeverContests(job, s)
    ensures NoContest(job, s)
  {
    assert IsOrder(job, s, []);
  }

  lemma NeverContestsLater(job: Job, s: Progress, e: Ext)
    requires WellFormed(job) && NeverContests(job, s) && May(job, s, e)
    ensures NeverContests(job, Turn(job, s, e))
  {
    forall turns | IsOrder(job, Turn(job, s, e), turns)
      ensures NoContest(job, After(job, Turn(job, s, e), turns))
    {
      FirstTurn(job, s, e, turns);
    }
  }

  /** A ready node can be taken first, with the same end. */
  lemma {:induction false} TakenFirst(job: Job, s: Progress, turns: seq<Ext>, e: Ext) returns (rest: seq<Ext>)
    requires WellFormed(job) && UnitsAreNew(job) && job.lost == {} && ProgressOk(job, s) && NeverContests(job, s)
    requires IsOrder(job, s, turns) && Over(job, After(job, s, turns)) && May(job, s, e)
    ensures IsOrder(job, Turn(job, s, e), rest) && After(job, Turn(job, s, e), rest) == After(job, s, turns)
    decreases |turns|
  {
    if turns == [] {
      rest := [];
    } else if turns[0] == e {
      rest := turns[1..];
    } else {
      var f := turns[0];
      NeverContestsNow(job, s);
      NeverContestsLater(job, s, f);
      TurnKeepsOk(job, s, f);
      TurnsCommute(job, s, e, f);
      var tail := TakenFirst(job, Turn(job, s, f), turns[1..], e);
      rest := [f] + tail;
      FirstTurn(job, Turn(job, s, e), f, tail);
    }
  }

  lemma {:induction false} SameEnd(job: Job, s: Progress, one: seq<Ext>, two: seq<Ext>)
    requires WellFormed(job) && UnitsAreNew(job) && job.lost == {} && ProgressOk(job, s) && NeverContests(job, s)
    requires IsOrder(job, s, one) && Over(job, After(job, s, one)) && IsOrder(job, s, two) && Over(job, After(job, s, two))
    ensures After(job, s, one) == After(job, s, two)
    decreases |two|
  {
    if two == [] {
      assert one == [];
    } else {
      var rest := TakenFirst(job, s, one, two[0]);
      TurnKeepsOk(job, s, two[0]);
      NeverContestsLater(job, s, two[0]);
      SameEnd(job, Turn(job, s, two[0]), rest, two[1..]);
    }
  }

  // ---- when codes are contested

  /** Two nodes could each make a unit, and under one code. */
  ghost predicate HasContest(job: Job)
    requires WellFormed(job)
  {
    exists c, d :: Clash(job, c, d)
  }

  predicate Clash(job: Job, c: seq<Ext>, d: seq<Ext>)
    requires WellFormed(job)
  {
    IsLine(job, c) && IsLine(job, d) && Last(c) != Last(d) && CodeAt(job, Last(c)) == CodeAt(job, Last(d))
  }

  /** With codes apart there is no contest. */
  lemma ApartIsUncontested(job: Job)
    requires WellFormed(job) && CodesApart(job)
    ensures !HasContest(job)
  {
    forall c, d
      ensures !Clash(job, c, d)
    {
      if IsLine(job, c) && IsLine(job, d) {
        assert CanFollow(job, Before(c, |c|-1), Last(c)) && CanFollow(job, Before(d, |d|-1), Last(d));
      }
    }
  }

  lemma ContestIsClash(job: Job, s: Progress, e: Ext, f: Ext)
    requires WellFormed(job) && job.lost == {} && ProgressOk(job, s) && Contest(job, s, e, f)
    ensures HasContest(job)
  {
    var c := LineToNext(job, s, e);
    var d := LineToNext(job, s, f);
    assert Clash(job, c, d);
  }

  lemma UncontestedNeverContests(job: Job)
    requires WellFormed(job) && UnitsAreNew(job) && job.lost == {} && !HasContest(job)
    ensures NeverContests(job, Begun(job))
  {
    forall turns | IsOrder(job, Begun(job), turns)
      ensures NoContest(job, After(job, Begun(job), turns))
    {
      var s := After(job, Begun(job), turns);
      OrderKeepsOk(job, Begun(job), turns);
      forall e, f
        ensures !Contest(job, s, e, f)
      {
        if Contest(job, s, e, f) {
          ContestIsClash(job, s, e, f);
        }
      }
    }
  }

  // ---- from a clash to a run that meets it

  lemma PrefixIsLine(job: Job, c: seq<Ext>, n: nat)
    requires WellFormed(job) && IsLine(job, c) && 0 < n <= |c|
    ensures IsLine(job, c[..n]) && Last(c[..n]) == c[n-1]
  {
    PrefixFollows(job, c, n);
    PrefixIsApart(job, c, n);
  }

  lemma PrefixFollows(job: Job, c: seq<Ext>, n: nat)
    requires WellFormed(job) && AllFollow(job, c) && n <= |c|
    ensures AllFollow(job, c[..n])
  {
    forall i | 0 <= i < n
      ensures CanFollow(job, Before(c[..n], i), c[..n][i])
    {
      PrefixAt(c, n, i);
    }
  }

  lemma PrefixIsApart(job: Job, c: seq<Ext>, n: nat)
    requires AllApart(job, c) && n <= |c|
    ensures AllApart(job, c[..n])
  {
    forall i, j | 0 <= i < j < n
      ensures Apart(job, c[..n], i, j)
    {
      PrefixAt(c, n, i);
      PrefixAt(c, n, j);
      assert Apart(job, c, i, j);
    }
  }

  lemma PrefixAt(c: seq<Ext>, n: nat, i: nat)
    requires i < n <= |c|
    ensures c[..n][i] == c[i] && Before(c[..n], i) == Before(c, i)
  {}

  /** Nobody but the line's own nodes has their codes. */
  predicate Spares(job: Job, c: seq<Ext>, some: set<Ext>) {
    forall i {:trigger SparesCode(job, c[i], some)} :: 0 <= i < |c| ==> SparesCode(job, c[i], some)
  }

  predicate SparesCode(job: Job, e: Ext, some: set<Ext>) {
    forall x :: x in some && CodeAt(job, x) == CodeAt(job, e) ==> x == e
  }

  /** A state before any node has lost its code, with only the given nodes done. */
  ghost predicate Early(job: Job, s: Progress, some: set<Ext>)
    requires WellFormed(job)
  {
    Reached(job, s) && ProgressOk(job, s) && s.lost == {} && s.done <= some
  }

  lemma FreeCode(job: Job, s: Progress, some: set<Ext>, e: Ext)
    requires WellFormed(job) && job.lost == {} && Early(job, s, some) && e in job.nodes && e !in s.done && MakesUnit(job, e)
    requires SparesCode(job, e, some)
    ensures !IsTaken(s.tree, CodeOf(job, e))
  {
    assert SoFar(job, s) == job;
    TakenByWhom(job, s.done, s.tree, CodeOf(job, e));
    assert forall f :: f in s.done ==> CodeAt(job, f) != CodeAt(job, e);
  }

  predicate Covers(c: seq<Ext>, n: nat, some: set<Ext>)
    requires n <= |c|
  {
    forall i :: 0 <= i < n ==> c[i] in some
  }

  /** The nodes of a line take their turns one after the other. */
  lemma {:induction false} FollowLine(job: Job, s: Progress, c: seq<Ext>, n: nat, some: set<Ext>) returns (t: Progress)
    requires WellFormed(job) && UnitsAreNew(job) && job.lost == {} && AllFollow(job, c) && n <= |c|
    requires Early(job, s, some) && Spares(job, c, some) && Covers(c, n, some)
    ensures Early(job, t, some) && s.done <= t.done && Covers(c, n, t.done)
    decreases n
  {
    if n == 0 {
      t := s;
    } else {
      var before := FollowLine(job, s, c, n - 1, some);
      t := FollowOne(job, before, c, n - 1, some);
      assert t.done == before.done + {c[n-1]};
    }
  }

  /** Its next node does, unless it has. */
  lemma FollowOne(job: Job, s: Progress, c: seq<Ext>, n: nat, some: set<Ext>) returns (t: Progress)
    requires WellFormed(job) && UnitsAreNew(job) && job.lost == {} && AllFollow(job, c) && n < |c|
    requires Early(job, s, some) && Spares(job, c, some) && c[n] in some && (n > 0 ==> c[n-1] in s.done)
    ensures Early(job, t, some) && t.done == s.done + {c[n]}
  {
    var e := c[n];
    assert CanFollow(job, Before(c, n), e) && SparesCode(job, e, some);
    if e in s.done {
      t := s;
    } else {
      assert SoFar(job, s) == job && job.(lost := {}) == job;
      assert May(job, s, e);
      FreeCode(job, s, some, e);
      TurnKeepsOk(job, s, e);
      ReachedOnward(job, s, e);
      t := Turn(job, s, e);
    }
  }

  /** Before their ends, the two lines have no code in common, unless it is of a node they share. */
  ghost predicate MeetLast(job: Job, c: seq<Ext>, d: seq<Ext>) {
    forall i, j {:trigger Meet(job, c, d, i, j)} :: Meet(job, c, d, i, j) ==> i == |c| - 1 && j == |d| - 1
  }

  predicate Meet(job: Job, c: seq<Ext>, d: seq<Ext>, i: int, j: int) {
    0 <= i < |c| && 0 <= j < |d| && CodeAt(job, c[i]) == CodeAt(job, d[j]) && c[i] != d[j]
  }

  /** The first clash on the way can be met by a run. */
  lemma {:induction false} ClashIsMet(job: Job, c: seq<Ext>, d: seq<Ext>) returns (s: Progress, e: Ext, f: Ext)
    requires WellFormed(job) && UnitsAreNew(job) && job.lost == {} && Clash(job, c, d)
    ensures Reached(job, s) && ProgressOk(job, s) && Contest(job, s, e, f)
    decreases |c| + |d|
  {
    if MeetLast(job, c, d) {
      s := BothReady(job, c, d);
      e, f := Last(c), Last(d);
    } else {
      var i, j :| Meet(job, c, d, i, j) && !(i == |c| - 1 && j == |d| - 1);
      EarlierClash(job, c, d, i, j);
      s, e, f := ClashIsMet(job, c[..i+1], d[..j+1]);
    }
  }

  lemma EarlierClash(job: Job, c: seq<Ext>, d: seq<Ext>, i: nat, j: nat)
    requires WellFormed(job) && Clash(job, c, d) && Meet(job, c, d, i, j)
    ensures Clash(job, c[..i+1], d[..j+1])
  {
    PrefixIsLine(job, c, i + 1);
    PrefixIsLine(job, d, j + 1);
  }

  lemma BothReady(job: Job, c: seq<Ext>, d: seq<Ext>) returns (s: Progress)
    requires WellFormed(job) && UnitsAreNew(job) && job.lost == {} && Clash(job, c, d) && MeetLast(job, c, d)
    ensures Reached(job, s) && ProgressOk(job, s) && Contest(job, s, Last(c), Last(d))
  {
    var some := AllBut(c) + AllBut(d);
    forall i, j | Meet(job, d, c, i, j)
      ensures i == |d| - 1 && j == |c| - 1
    {
      assert Meet(job, c, d, j, i);
    }
    LineSpares(job, c, d);
    LineSpares(job, d, c);
    assert some == AllBut(d) + AllBut(c);
    s := Begun(job);
    BegunIsReached(job);
    assert Early(job, s, some);
    s := FollowLine(job, s, c, |c| - 1, some);
    s := FollowLine(job, s, d, |d| - 1, some);
    LastMay(job, s, c, some);
    LastMay(job, s, d, some);
    assert SparesCode(job, c[|c|-1], some);
    FreeCode(job, s, some, Last(c));
  }

  function AllBut(c: seq<Ext>): set<Ext>
    requires |c| > 0
  {
    set i | 0 <= i < |c| - 1 :: c[i]
  }

  lemma LineSpares(job: Job, c: seq<Ext>, d: seq<Ext>)
    requires WellFormed(job) && Clash(job, c, d) && MeetLast(job, c, d)
    ensures Spares(job, c, AllBut(c) + AllBut(d))
    ensures Last(c) !in AllBut(c) + AllBut(d)
  {
    forall i, k | 0 <= i < |c| && 0 <= k < |d| - 1 && CodeAt(job, d[k]) == CodeAt(job, c[i])
      ensures d[k] == c[i]
    {
      assert !Meet(job, c, d, i, k);
    }
    forall k | 0 <= k < |d| - 1
      ensures d[k] != Last(c)
    {
      assert Apart(job, d, k, |d| - 1);
    }
    forall i, k | 0 <= i < |c| && 0 <= k < |c| - 1 && CodeAt(job, c[k]) == CodeAt(job, c[i])
      ensures i == k
    {
      assert if i < k then Apart(job, c, i, k) else i == k || Apart(job, c, k, i);
    }
  }

  lemma LastMay(job: Job, s: Progress, c: seq<Ext>, some: set<Ext>)
    requires WellFormed(job) && job.lost == {} && IsLine(job, c) && Early(job, s, some) && Last(c) !in some
    requires forall i :: 0 <= i < |c| - 1 ==> c[i] in s.done
    ensures May(job, s, Last(c)) && MakesUnit(SoFar(job, s), Last(c))
  {
    assert CanFollow(job, Before(c, |c| - 1), Last(c));
    assert SoFar(job, s) == job && job.(lost := {}) == job;
  }

  // ---- two ends

  lemma {:induction false} Finish(job: Job, s: Progress) returns (t: Progress)
    requires WellFormed(job) && UnitsAreNew(job) && job.lost == {} && Reached(job, s) && ProgressOk(job, s)
    ensures IsEnd(job, t) && ProgressOk(job, t) && Extends(job, s, t)
    decreases |job.nodes.Keys - s.done|
  {
    if e :| e in job.nodes && May(job, s, e) {
      ReachedOnward(job, s, e);
      TurnKeepsOk(job, s, e);
      TurnExtends(job, s, e);
      SmallerIsFewer(job.nodes.Keys - Turn(job, s, e).done, job.nodes.Keys - s.done);
      t := Finish(job, Turn(job, s, e));
    } else {
      t := s;
    }
  }

  /** Nodes done stay done, having made their units or not, and units stay. */
  predicate Extends(job: Job, s: Progress, t: Progress) {
    && s.done <= t.done && (forall e :: e in s.done ==> (e in t.lost <==> e in s.lost))
    && (forall u :: u in s.tree ==> u in t.tree)
  }

  lemma TurnExtends(job: Job, s: Progress, e: Ext)
    requires WellFormed(job) && May(job, s, e)
    ensures Extends(job, s, Turn(job, s, e))
  {}

  /** Whichever of the two is taken first gets the unit. */
  lemma TwoEnds(job: Job, s: Progress, e: Ext, f: Ext) returns (t: Progress, t': Progress)
    requires WellFormed(job) && UnitsAreNew(job) && job.lost == {} && Reached(job, s) && ProgressOk(job, s) && Contest(job, s, e, f)
    ensures IsEnd(job, t) && IsEnd(job, t')
    ensures job.calls[e].unit in t.tree && job.calls[e].unit !in t'.tree
  {
    ReachedOnward(job, s, e);
    ReachedOnward(job, s, f);
    TurnKeepsOk(job, s, e);
    TurnKeepsOk(job, s, f);
    t := Finish(job, Turn(job, s, e));
    t' := Finish(job, Turn(job, s, f));
    LoserStaysOut(job, s, e, f, t');
  }

  /** Once f has had its turn, the code is gone for e. */
  lemma LoserStaysOut(job: Job, s: Progress, e: Ext, f: Ext, t: Progress)
    requires WellFormed(job) && UnitsAreNew(job) && Contest(job, s, e, f) && ProgressOk(job, t) && Extends(job, Turn(job, s, f), t)
    ensures job.calls[e].unit !in t.tree
  {
    var u := job.calls[e].unit;
    assert f in t.done && MakesUnit(SoFar(job, t), f);
    if u in t.tree {
      assert IsMade(SoFar(job, t), t.done, u);
      assert MadeAlike(job, t, e, f);
      assert false;
    }
  }

  lemma EndsAgree(job: Job, s: Progress, t: Progress)
    requires WellFormed(job) && UnitsAreNew(job) && job.lost == {} && !HasContest(job) && IsEnd(job, s) && IsEnd(job, t)
    ensures s == t
  {
    var one :| IsOrder(job, Begun(job), one) && After(job, Begun(job), one) == s;
    var two :| IsOrder(job, Begun(job), two) && After(job, Begun(job), two) == t;
    UncontestedNeverContests(job);
    SameEnd(job, Begun(job), one, two);
  }

  /** The order of work matters if and only if two nodes could each make a unit under one code. */
  lemma OrderMattersIff(job: Job)
    requires WellFormed(job) && UnitsAreNew(job) && job.lost == {}
    ensures HasContest(job) <==> exists s, t :: IsEnd(job, s) && IsEnd(job, t) && s.tree != t.tree
  {
    if HasContest(job) {
      var c, d :| Clash(job, c, d);
      var s, e, f := ClashIsMet(job, c, d);
      var t, t' := TwoEnds(job, s, e, f);
      assert IsEnd(job, t) && IsEnd(job, t') && t.tree != t'.tree;
    } else {
      forall s, t | IsEnd(job, s) && IsEnd(job, t)
        ensures s == t
      {
        EndsAgree(job, s, t);
      }
    }
  }

  /** Without such a contest, two runs of one job, in whatever orders, leave the same table, the same units
      in the same places, the same counts, and have called CreateChildOrg for the same nodes. */
  lemma SyncIsConfluent(job: Job, g: Job, w: Work, rows: Rows, tree: Units, called: seq<Ext>,
                        g': Job, w': Work, rows': Rows, tree': Units, called': seq<Ext>, calledBefore: seq<Ext>)
    requires WellFormed(job) && UnitsAreNew(job) && job.lost == {} && !HasContest(job)
    requires g == job.(lost := g.lost) && IsEnd(job, Progress(Done(g, w), g.lost, tree))
    requires g' == job.(lost := g'.lost) && IsEnd(job, Progress(Done(g', w'), g'.lost, tree'))
    requires IsOutcome(g, w, rows, tree, called, calledBefore) && IsOutcome(g', w', rows', tree', called', calledBefore)
    ensures Done(g, w) == Done(g', w') && rows == rows' && tree == tree'
    ensures w.created == w'.created && w.skipped == w'.skipped && w.failed == w'.failed && w.remaining == w'.remaining
    ensures forall e :: e in called[|calledBefore|..] <==> e in called'[|calledBefore|..]
  {
    EndsAgree(job, Progress(Done(g, w), g.lost, tree), Progress(Done(g', w'), g'.lost, tree'));
    assert g == g';
    SameOutcome(g, w, rows, tree, called, w', rows', tree', called', calledBefore);
  }
}
