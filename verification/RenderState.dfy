/**
  contour::RenderStateManager: one render thread calling fetchAndClear() and finish(), any number of
  I/O threads calling touch(), all on one atomic state.

  Every atomic access is one step, so a call of touch() or finish() can be interrupted between its
  load and its compare-exchange. The accesses are sequentially consistent in the original, so a run
  is an interleaving of steps. The render thread may make its two calls in any order: a paint that
  has no render target yet returns before fetchAndClear(), and finish() is called regardless.
  */
module RenderStates {
  import opened Options

  datatype RenderState = CleanIdle | DirtyIdle | CleanPainting | DirtyPainting {
    predicate Dirty() {
      DirtyIdle? || DirtyPainting?
    }
    predicate Painting() {
      CleanPainting? || DirtyPainting?
    }
  }

  /** Where a thread is: outside the call, about to load, or about to act on what it loaded. */
  datatype Pc = Out | Loading | Deciding(seen: RenderState)

  datatype Config = Config(state: RenderState, pressure: bool, renderer: Pc, touchers: seq<Pc>)

  datatype Action =
    | FetchAndClear
    | BeginFinish
    | LoadFinish
    | DecideFinish
    | BeginTouch(t: nat)
    | LoadTouch(t: nat)
    | DecideTouch(t: nat)

  predicate Enabled(c: Config, a: Action) {
    match a
    case FetchAndClear => c.renderer.Out?
    case BeginFinish => c.renderer.Out?
    case LoadFinish => c.renderer.Loading?
    case DecideFinish => c.renderer.Deciding?
    case BeginTouch(t) => t < |c.touchers| && c.touchers[t].Out?
    case LoadTouch(t) => t < |c.touchers| && c.touchers[t].Loading?
    case DecideTouch(t) => t < |c.touchers| && c.touchers[t].Deciding?
  }

  /** What touch() wants to put in place of the clean state it saw. */
  function Soiled(s: RenderState): RenderState {
    match s
    case CleanIdle => DirtyIdle
    case CleanPainting => DirtyPainting
    case _ => s
  }

  function Next(c: Config, a: Action): Config
    requires Enabled(c, a)
  {
    match a
    case FetchAndClear => c.(state := CleanPainting)
    case BeginFinish => c.(renderer := Loading)
    case LoadFinish => c.(renderer := Deciding(c.state))
    case DecideFinish =>
      (match c.renderer.seen
       case DirtyIdle => c.(renderer := Out)
       case DirtyPainting => c.(renderer := Out)
       case CleanPainting =>
         if c.state == c.renderer.seen then c.(state := CleanIdle, pressure := false, renderer := Out)
         else c.(renderer := Loading)
       case CleanIdle => c.(pressure := false, renderer := Out))
    case BeginTouch(t) => c.(touchers := c.touchers[t := Loading])
    case LoadTouch(t) => c.(touchers := c.touchers[t := Deciding(c.state)])
    case DecideTouch(t) =>
      var seen := c.touchers[t].seen;
      if seen.Dirty() then c.(touchers := c.touchers[t := Out])
      else if c.state == seen then c.(state := Soiled(seen), touchers := c.touchers[t := Out])
      else c.(touchers := c.touchers[t := Loading])
  }

  /** The value finish() returns in this step, if it returns in it. */
  function FinishReturns(c: Config, a: Action): Option<bool>
    requires Enabled(c, a)
  {
    if !a.DecideFinish? || Next(c, a).renderer.Loading? then None else Some(!c.renderer.seen.Dirty())
  }

  /** The value touch() returns in this step, if it returns in it. */
  function TouchReturns(c: Config, a: Action): Option<bool>
    requires Enabled(c, a)
  {
    if !a.DecideTouch? || Next(c, a).touchers[a.t].Loading? then None else Some(c.touchers[a.t].seen.CleanIdle?)
  }

  /** The compare-exchange of this step is tried and fails. */
  predicate CasFails(c: Config, a: Action)
    requires Enabled(c, a)
  {
    match a
    case DecideFinish => Next(c, a).renderer.Loading?
    case DecideTouch(t) => Next(c, a).touchers[t].Loading?
    case _ => false
  }

  /** In this step a touch takes effect: it makes the state dirty, or finds it dirty. */
  predicate TouchTakesEffect(c: Config, a: Action)
    requires Enabled(c, a)
  {
    || (a.LoadTouch? && c.state.Dirty())
    || (a.DecideTouch? && !c.touchers[a.t].seen.Dirty() && TouchReturns(c, a).Some?)
  }

  // ----- Runs -----

  function Initial(n: nat, pressure: bool): Config {
    Config(CleanIdle, pressure, Out, seq(n, _ => Out))
  }

  /** Every action of the run is possible where it is taken. */
  predicate Possible(c: Config, run: seq<Action>)
    decreases |run|, 0
  {
    run == [] || (Possible(c, run[..|run| - 1]) && Enabled(After(c, run[..|run| - 1]), run[|run| - 1]))
  }

  function After(c: Config, run: seq<Action>): Config
    requires Possible(c, run)
    decreases |run|, 1
  {
    if run == [] then c else Next(After(c, run[..|run| - 1]), run[|run| - 1])
  }

  /** What has happened since the last fetchAndClear(), or since the start. */
  datatype History = History(touched: bool, trueTouches: nat, finished: bool, falseFinishes: nat)

  function Recorded(h: History, c: Config, a: Action): History
    requires Enabled(c, a)
  {
    if a.FetchAndClear? then History(false, 0, false, 0)
    else
      History(
        h.touched || TouchTakesEffect(c, a),
        h.trueTouches + if TouchReturns(c, a) == Some(true) then 1 else 0,
        h.finished || FinishReturns(c, a).Some?,
        h.falseFinishes + if FinishReturns(c, a) == Some(false) then 1 else 0)
  }

  /** Before the first paint there is no paint to be finished. */
  function HistoryOf(c: Config, run: seq<Action>): History
    requires Possible(c, run)
    decreases |run|
  {
    if run == [] then History(false, 0, true, 0)
    else Recorded(HistoryOf(c, run[..|run| - 1]), After(c, run[..|run| - 1]), run[|run| - 1])
  }

  // ----- The invariant -----

  ghost predicate Inv(c: Config, h: History) {
    && (h.touched <==> c.state.Dirty())
    && h.trueTouches == (if c.state.DirtyIdle? then 1 else 0)
    && (c.state.CleanPainting? ==> !h.finished)
    && (!h.finished ==> c.state.Painting())
    && (c.state.DirtyPainting? && h.finished ==> h.falseFinishes > 0)
    && (c.renderer.Deciding? ==> Sees(c.renderer.seen, c.state))
  }

  /** What the render thread loaded can only have been soiled meanwhile, never cleaned or repainted. */
  predicate Sees(seen: RenderState, state: RenderState) {
    state == seen || state == Soiled(seen)
  }

  lemma StepKeepsInv(c: Config, h: History, a: Action)
    requires Inv(c, h) && Enabled(c, a)
    ensures Inv(Next(c, a), Recorded(h, c, a))
  {
  }

  lemma {:induction false} RunKeepsInv(n: nat, pressure: bool, run: seq<Action>)
    requires Possible(Initial(n, pressure), run)
    ensures Inv(After(Initial(n, pressure), run), HistoryOf(Initial(n, pressure), run))
    decreases |run|
  {
    if run != [] {
      var before := run[..|run| - 1];
      RunKeepsInv(n, pressure, before);
      var c := Initial(n, pressure);
      StepKeepsInv(After(c, before), HistoryOf(c, before), run[|run| - 1]);
    }
  }

  // ----- Theorems over all runs -----

  /** A paint is going on whose finish() has nothing but bad news. */
  ghost predicate Doomed(c: Config) {
    c.state.DirtyPainting? && (c.renderer.Deciding? ==> c.renderer.seen.Painting())
  }

  lemma DoomedStep(c: Config, a: Action)
    requires Doomed(c) && Enabled(c, a) && !a.FetchAndClear?
    ensures Doomed(Next(c, a)) && FinishReturns(c, a) != Some(true)
  {
  }

  lemma {:induction false} DoomedRun(c: Config, run: seq<Action>)
    requires Doomed(c) && Possible(c, run) && forall j :: 0 <= j < |run| ==> !run[j].FetchAndClear?
    ensures Doomed(After(c, run))
    decreases |run|
  {
    if run != [] {
      DoomedRun(c, run[..|run| - 1]);
      DoomedStep(After(c, run[..|run| - 1]), run[|run| - 1]);
    }
  }

  /**
    No update is lost. In every reachable configuration, a touch since the last clear leaves the state
    dirty; and then either a touch() has returned true, or whatever the threads do next (`more`),
    until the next clear the state stays DirtyPainting and finish() cannot return true.
    */
  lemma NoUpdateLost(n: nat, pressure: bool, run: seq<Action>, more: seq<Action>, a: Action)
    requires Possible(Initial(n, pressure), run)
    requires var c := After(Initial(n, pressure), run); Possible(c, more) && Enabled(After(c, more), a)
    requires forall j :: 0 <= j < |more| ==> !more[j].FetchAndClear?
    ensures var c, h := After(Initial(n, pressure), run), HistoryOf(Initial(n, pressure), run);
            && (h.touched <==> c.state.Dirty())
            && (h.touched && h.trueTouches == 0 ==>
                  After(c, more).state.DirtyPainting? && FinishReturns(After(c, more), a) != Some(true))
  {
    RunKeepsInv(n, pressure, run);
    var c := After(Initial(n, pressure), run);
    if c.state.DirtyPainting? {
      DoomedRun(c, more);
      if !a.FetchAndClear? {
        DoomedStep(After(c, more), a);
      }
    }
  }

  /**
    Whenever an update is pending and no paint is going on, somebody has been told: a touch()
    returned true, or a finish() returned false.
    */
  lemma SomebodyWasTold(n: nat, pressure: bool, run: seq<Action>)
    requires Possible(Initial(n, pressure), run)
    ensures var c, h := After(Initial(n, pressure), run), HistoryOf(Initial(n, pressure), run);
            c.state.Dirty() && h.finished ==> h.trueTouches + h.falseFinishes > 0
  {
    RunKeepsInv(n, pressure, run);
  }

  /** Between two clears at most one touch() returns true, and one does exactly when DirtyIdle is reached. */
  lemma AtMostOneTrueTouch(n: nat, pressure: bool, run: seq<Action>)
    requires Possible(Initial(n, pressure), run)
    ensures var c, h := After(Initial(n, pressure), run), HistoryOf(Initial(n, pressure), run);
            h.trueTouches <= 1 && (h.trueTouches == 1 <==> c.state.DirtyIdle?)
  {
    RunKeepsInv(n, pressure, run);
  }

  /** From a fetchAndClear() until a finish() returns a paint is going on, and no touch() returns true. */
  lemma QuietWhilePainting(n: nat, pressure: bool, run: seq<Action>)
    requires Possible(Initial(n, pressure), run)
    ensures var c, h := After(Initial(n, pressure), run), HistoryOf(Initial(n, pressure), run);
            && (!h.finished ==> c.state.Painting() && h.trueTouches == 0)
            && (h.finished && c.state.Painting() ==> h.falseFinishes > 0)
  {
    RunKeepsInv(n, pressure, run);
  }

  /**
    finish() returns false only while an update is pending, and leaves the state alone. When it returns
    true the paint is over and the pressure is off, and an update that came in meanwhile has been
    reported by touch().
    */
  lemma FinishTellsTheTruth(n: nat, pressure: bool, run: seq<Action>, a: Action)
    requires Possible(Initial(n, pressure), run) && Enabled(After(Initial(n, pressure), run), a)
    ensures var c, h := After(Initial(n, pressure), run), HistoryOf(Initial(n, pressure), run);
            && (FinishReturns(c, a) == Some(false) ==> c.state.Dirty() && Next(c, a).state == c.state)
            && (FinishReturns(c, a) == Some(true) ==>
                  && !Next(c, a).state.Painting() && !Next(c, a).pressure
                  && (Next(c, a).state.Dirty() ==> h.trueTouches == 1))
            && (Next(c, a).pressure != c.pressure ==> FinishReturns(c, a) == Some(true))
  {
    RunKeepsInv(n, pressure, run);
  }

  /**
    touch() returns true exactly in the step from CleanIdle to DirtyIdle, and false only for a dirty
    state; it and finish() try again only when the state has changed since they loaded it.
    */
  lemma TouchTellsTheTruth(c: Config, a: Action)
    requires Enabled(c, a)
    ensures TouchReturns(c, a) == Some(true) <==> c.state.CleanIdle? && Next(c, a).state.DirtyIdle?
    ensures TouchReturns(c, a) == Some(false) ==>
              c.touchers[a.t].seen.Dirty() || (c.state.CleanPainting? && Next(c, a).state.DirtyPainting?)
    ensures a.FetchAndClear? ==> Next(c, a).state.CleanPainting?
    ensures a.DecideTouch? ==>
              var seen := c.touchers[a.t].seen; TouchReturns(c, a).None? <==> !seen.Dirty() && c.state != seen
    ensures a.DecideFinish? ==>
              var seen := c.renderer.seen; FinishReturns(c, a).None? <==> seen.CleanPainting? && c.state != seen
  {
  }

  // ----- Failed compare-exchanges -----

  predicate ByRenderer(a: Action) {
    a.FetchAndClear? || a.BeginFinish? || a.LoadFinish? || a.DecideFinish?
  }

  /** The thread that takes an action: Some(t) for an I/O thread, None for the render thread. */
  function Actor(a: Action): Option<nat> {
    if ByRenderer(a) then None else Some(a.t)
  }

  function PcOf(c: Config, who: Option<nat>): Pc
    requires who.Some? ==> who.value < |c.touchers|
  {
    if who.None? then c.renderer else c.touchers[who.value]
  }

  lemma {:induction false} ThreadCount(c: Config, run: seq<Action>)
    requires Possible(c, run)
    ensures |After(c, run).touchers| == |c.touchers|
    decreases |run|
  {
    if run != [] {
      ThreadCount(c, run[..|run| - 1]);
    }
  }

  /** Step m of the run is taken by another thread than `who`, and changes the state. */
  ghost predicate ChangedByOther(c: Config, run: seq<Action>, who: Option<nat>, m: nat) {
    && m < |run| && Actor(run[m]) != who
    && Possible(c, run[..m]) && Possible(c, run[..m + 1])
    && After(c, run[..m + 1]).state != After(c, run[..m]).state
  }

  /** Step i of the run is the load by which `who` saw `seen`. */
  ghost predicate LoadedAt(c: Config, run: seq<Action>, who: Option<nat>, i: nat, seen: RenderState) {
    && i < |run| && Actor(run[i]) == who && (run[i].LoadFinish? || run[i].LoadTouch?)
    && Possible(c, run[..i]) && After(c, run[..i]).state == seen
  }

  /**
    A thread that has loaded but not yet decided either still sees the current state, or another
    thread changed it after the load.
    */
  lemma {:induction false} StaleMeansChanged(c: Config, run: seq<Action>, who: Option<nat>) returns (i: nat, m: nat)
    requires Possible(c, run)
    requires who.Some? ==> who.value < |After(c, run).touchers|
    requires c.renderer.Out? && forall t :: 0 <= t < |c.touchers| ==> c.touchers[t].Out?
    requires PcOf(After(c, run), who).Deciding?
    ensures LoadedAt(c, run, who, i, PcOf(After(c, run), who).seen)
    ensures After(c, run).state != PcOf(After(c, run), who).seen ==> i < m && ChangedByOther(c, run, who, m)
    decreases |run|
  {
    ThreadCount(c, run);
    var before, last := run[..|run| - 1], run[|run| - 1];
    ThreadCount(c, before);
    var b := After(c, before);
    assert run[..|run|] == run;
    if Actor(last) == who {
      OwnLoad(b, last, who);
      i, m := |run| - 1, 0;
    } else {
      OthersLeavePc(b, last, who);
      i, m := StaleMeansChanged(c, before, who);
      LoadedLonger(c, run, who, i, PcOf(b, who).seen);
      if b.state == PcOf(b, who).seen {
        m := |run| - 1;
      } else {
        ChangedLonger(c, run, who, m);
      }
    }
  }

  lemma OwnLoad(c: Config, a: Action, who: Option<nat>)
    requires Enabled(c, a) && Actor(a) == who && (who.Some? ==> who.value < |c.touchers|)
    requires PcOf(Next(c, a), who).Deciding?
    ensures (a.LoadFinish? || a.LoadTouch?) && PcOf(Next(c, a), who).seen == c.state == Next(c, a).state
  {
  }

  lemma OthersLeavePc(c: Config, a: Action, who: Option<nat>)
    requires Enabled(c, a) && Actor(a) != who && (who.Some? ==> who.value < |c.touchers|)
    ensures PcOf(Next(c, a), who) == PcOf(c, who)
  {
  }

  lemma LoadedLonger(c: Config, run: seq<Action>, who: Option<nat>, i: nat, seen: RenderState)
    requires run != [] && LoadedAt(c, run[..|run| - 1], who, i, seen)
    ensures LoadedAt(c, run, who, i, seen)
  {
    assert run[..|run| - 1][..i] == run[..i];
  }

  lemma ChangedLonger(c: Config, run: seq<Action>, who: Option<nat>, m: nat)
    requires run != [] && ChangedByOther(c, run[..|run| - 1], who, m)
    ensures ChangedByOther(c, run, who, m)
  {
    var before := run[..|run| - 1];
    assert before[..m] == run[..m] && before[..m + 1] == run[..m + 1];
  }

  /** A compare-exchange fails only because another thread changed the state since this thread's load. */
  lemma FailedCasMeansInterference(n: nat, pressure: bool, run: seq<Action>, a: Action) returns (i: nat, m: nat)
    requires Possible(Initial(n, pressure), run) && Enabled(After(Initial(n, pressure), run), a)
    requires CasFails(After(Initial(n, pressure), run), a)
    ensures i < m && ChangedByOther(Initial(n, pressure), run, Actor(a), m)
    ensures exists seen :: LoadedAt(Initial(n, pressure), run, Actor(a), i, seen)
  {
    var c := Initial(n, pressure);
    ThreadCount(c, run);
    i, m := StaleMeansChanged(c, run, Actor(a));
  }
}
