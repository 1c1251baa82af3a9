/** The gate in front of level loads: one load at a time, and while one runs the latest request waits. */
module LevelGate {

  /** A level and its mode; no level name means no request. */
  datatype Load = Load(level: string, mode: string)

  const NoLoad := Load("", "")

  datatype Gate = Gate(levelLoaded: bool, waiting: Load, current: Load, posted: seq<Load>)

  const Start := Gate(false, NoLoad, NoLoad, [])

  /** A notification says which load has ended: 0 is the one the server starts with, k the k-th that was posted. The
      code is not told; it only sees that one has. */
  datatype Event = Requested(load: Load) | LevelLoaded(ended: nat)

  function Request(g: Gate, load: Load): Gate {
    if g.levelLoaded then g.(levelLoaded := false, current := load, posted := g.posted + [load])
    else g.(waiting := load, current := load)
  }

  function Loaded(g: Gate): Gate {
    if g.waiting.level == "" then g.(levelLoaded := true)
    else Gate(false, NoLoad, g.waiting, g.posted + [g.waiting])
  }

  function Step(g: Gate, e: Event): Gate {
    match e
    case Requested(load) => Request(g, load)
    case LevelLoaded(_) => Loaded(g)
  }

  // ---------------------------------------------------------------- the code

  class Server {
    var m_levelLoaded: bool
    var m_latestLoadLevelRequest: Load
    var m_current: Load
    /** The loads handed on to the game. */
    var posted: seq<Load>
    /** Whether the mutex of the waiting request is held. It must not be locked again by its holder. */
    ghost var locked: bool

    ghost function State(): Gate
      reads this
    {
      Gate(m_levelLoaded, m_latestLoadLevelRequest, m_current, posted)
    }

    constructor ()
      ensures State() == Start && !locked
    {
      m_levelLoaded, m_latestLoadLevelRequest, m_current, posted, locked := false, NoLoad, NoLoad, [], false;
    }

    ghost method Lock()
      requires !locked
      modifies this`locked
      ensures locked
    {
      locked := true;
    }

    ghost method Unlock()
      requires locked
      modifies this`locked
      ensures !locked
    {
      locked := false;
    }

    /** The hook around the game's own post: it locks only while no level is loaded. */
    method LoadLevelMessagePost(load: Load)
      requires !m_levelLoaded ==> !locked
      modifies this`m_levelLoaded, this`m_latestLoadLevelRequest, this`posted, this`locked
      ensures locked == old(locked)
      ensures State() == if old(m_levelLoaded) then old(State()).(levelLoaded := false, posted := old(posted) + [load])
                         else old(State()).(waiting := load)
    {
      if !m_levelLoaded {
        Lock();
        m_latestLoadLevelRequest := load;
        Unlock();
        return;
      }
      m_levelLoaded := false;
      posted := posted + [load];
    }

    method LoadNextLevel(load: Load)
      requires !m_levelLoaded ==> !locked
      modifies this
      ensures State() == Request(old(State()), load) && locked == old(locked)
    {
      m_current := load;
      LoadLevelMessagePost(load);
    }

    /** Calls back into the gate while it holds the lock. */
    method OnLevelLoaded()
      requires !locked
      modifies this
      ensures State() == Loaded(old(State())) && !locked
    {
      m_levelLoaded := true;
      Lock();
      if m_latestLoadLevelRequest.level != "" {
        LoadNextLevel(m_latestLoadLevelRequest);
        m_latestLoadLevelRequest := NoLoad;
      }
      Unlock();
    }
  }

  // ---------------------------------------------------------------- whole runs

  function After(run: seq<Event>): Gate {
    if run == [] then Start else Step(After(run[..|run| - 1]), run[|run| - 1])
  }

  function Requests(run: seq<Event>): seq<Load> {
    if run == [] then [] else
    Requests(run[..|run| - 1]) + if run[|run| - 1].Requested? then [run[|run| - 1].load] else []
  }

  predicate NamedRequests(run: seq<Event>) {
    forall e | e in run :: e.Requested? ==> e.load.level != ""
  }

  function Last(s: seq<Load>): Load
    requires s != []
  {
    s[|s| - 1]
  }

  /** The latest request waits or was posted last; only it can wait, and only while a level is loading. */
  predicate LatestWins(g: Gate, requests: seq<Load>) {
    (g.waiting != NoLoad ==> !g.levelLoaded && requests != [] && g.waiting == Last(requests) && g.waiting.level != "")
    && (requests != [] ==> g.current == Last(requests))
    && (requests != [] && g.waiting == NoLoad ==> g.posted != [] && Last(g.posted) == Last(requests))
    && (requests == [] ==> g.posted == [])
  }

  lemma {:induction false} RunLatestWins(run: seq<Event>)
    requires NamedRequests(run)
    ensures LatestWins(After(run), Requests(run))
    decreases |run|
  {
    if run != [] {
      var init, e := run[..|run| - 1], run[|run| - 1];
      assert e in run;
      assert forall x | x in init :: x in run;
      RunLatestWins(init);
    }
  }

  /** In every run, whenever a level is loaded and some request was made, nothing waits and the level posted last is
      the one requested last; while one is loading, what waits is the last request or nothing. */
  lemma IdleMeansServed(run: seq<Event>)
    requires NamedRequests(run)
    ensures var g := After(run);
            (g.levelLoaded ==> g.waiting == NoLoad)
            && (g.levelLoaded && Requests(run) != [] ==> g.posted != [] && Last(g.posted) == Last(Requests(run)))
            && (g.waiting != NoLoad ==> g.waiting == Last(Requests(run)))
  {
    RunLatestWins(run);
  }

  /** A load is posted by at most one event at a time, and it is always the latest request made so far. */
  lemma PostsTheLatest(run: seq<Event>)
    requires run != [] && NamedRequests(run)
    ensures var before, after := After(run[..|run| - 1]).posted, After(run).posted;
            after == before || (Requests(run) != [] && after == before + [Last(Requests(run))])
  {
    var init := run[..|run| - 1];
    assert forall x | x in init :: x in run;
    RunLatestWins(init);
  }

  // ---------------------------------------------------------------- no two loads at once

  /** Loads under way: those started and not yet ended. */
  function UnderWay(run: seq<Event>): set<nat> {
    if run == [] then {0} else
    var init, e := run[..|run| - 1], run[|run| - 1];
    var left := UnderWay(init) - if e.LevelLoaded? then {e.ended} else {};
    if |After(run).posted| > |After(init).posted| then left + {|After(run).posted|} else left
  }

  /** The gate knows what is under way: nothing when it is open, and otherwise the load posted last and no other. */
  predicate InStep(run: seq<Event>) {
    UnderWay(run) == if After(run).levelLoaded then {} else {|After(run).posted|}
  }

  /** It does so at every point of the run. */
  predicate AlwaysInStep(run: seq<Event>) {
    InStep(run) && (run == [] || AlwaysInStep(run[..|run| - 1]))
  }

  /** Every notification ends a load under way or finds the gate open already. */
  predicate WellTimed(run: seq<Event>) {
    run == [] ||
    (WellTimed(run[..|run| - 1])
     && (run[|run| - 1].LevelLoaded? ==>
           run[|run| - 1].ended in UnderWay(run[..|run| - 1]) || After(run[..|run| - 1]).levelLoaded))
  }

  lemma {:induction false} OpenMeansNothingWaits(run: seq<Event>)
    ensures After(run).levelLoaded ==> After(run).waiting.level == ""
    decreases |run|
  {
    if run != [] {
      OpenMeansNothingWaits(run[..|run| - 1]);
    }
  }

  /** From a point where the gate is in step, one more event keeps it so exactly when it is well timed. */
  lemma NextInStep(run: seq<Event>)
    requires run != [] && InStep(run[..|run| - 1])
    ensures InStep(run) <==> (run[|run| - 1].LevelLoaded? ==>
                                run[|run| - 1].ended in UnderWay(run[..|run| - 1]) || After(run[..|run| - 1]).levelLoaded)
  {
    var init, e := run[..|run| - 1], run[|run| - 1];
    var n := |After(init).posted|;
    OpenMeansNothingWaits(init);
    if e.LevelLoaded? && e.ended !in UnderWay(init) && !After(init).levelLoaded {
      assert n in UnderWay(run) && n != n + 1;
    }
  }

  /** In every run, at most one load is ever under way, the one posted last, and none exactly when the gate is open, if
      and only if every notification ends a load under way or finds the gate open. */
  lemma {:induction false} LoadsNeverOverlap(run: seq<Event>)
    ensures AlwaysInStep(run) <==> WellTimed(run)
    decreases |run|
  {
    if run == [] {
      NothingYet();
    } else {
      LoadsNeverOverlap(run[..|run| - 1]);
      if AlwaysInStep(run[..|run| - 1]) {
        NextInStep(run);
      }
    }
  }

  lemma OneMore(init: seq<Event>, e: Event)
    ensures After(init + [e]) == Step(After(init), e)
    ensures UnderWay(init + [e]) ==
            var left := UnderWay(init) - if e.LevelLoaded? then {e.ended} else {};
            if |After(init + [e]).posted| > |After(init).posted| then left + {|After(init + [e]).posted|} else left
  {
    assert (init + [e])[..|init|] == init;
  }

  /** After the first ill-timed notification of a run, at the latest the next request is posted into a running load. */
  lemma IllTimedOverlaps(run: seq<Event>, ended: nat, load: Load)
    requires AlwaysInStep(run) && ended !in UnderWay(run) && !After(run).levelLoaded
    ensures var n := |After(run).posted|; UnderWay(run + [LevelLoaded(ended)] + [Requested(load)]) == {n, n + 1}
  {
    hide After, UnderWay;
    OneMore(run, LevelLoaded(ended));
    OneMore(run + [LevelLoaded(ended)], Requested(load));
  }

  lemma NothingYet()
    ensures After([]) == Start && UnderWay([]) == {0}
  {
  }

  /** An ill-timed one, and two different hooks give notifications, opens the gate too early: the next request is
      posted while the previous one is still loading. */
  lemma SecondNotificationOverlaps(a: Load, b: Load)
    ensures UnderWay([LevelLoaded(0), Requested(a), LevelLoaded(0), Requested(b)]) == {1, 2}
  {
    hide After, UnderWay;
    NothingYet();
    var r1 := [LevelLoaded(0)];
    var r2 := r1 + [Requested(a)];
    var r3 := r2 + [LevelLoaded(0)];
    var r4 := r3 + [Requested(b)];
    OneMore([], LevelLoaded(0));
    assert [] + [LevelLoaded(0)] == r1;
    OneMore(r1, Requested(a));
    OneMore(r2, LevelLoaded(0));
    OneMore(r3, Requested(b));
    assert After(r1) == Gate(true, NoLoad, NoLoad, []) && UnderWay(r1) == {};
    assert After(r2).posted == [a] && UnderWay(r2) == {1} && !After(r2).levelLoaded;
    assert After(r3).posted == [a] && UnderWay(r3) == {1} && After(r3).levelLoaded;
    assert After(r4).posted == [a, b];
    assert r4 == [LevelLoaded(0), Requested(a), LevelLoaded(0), Requested(b)];
  }

  /** A request without a level name, made while a level loads, drops the one that was waiting. */
  lemma EmptyNameDropsWaiting(g: Gate, mode: string)
    requires !g.levelLoaded && g.waiting.level != ""
    ensures Loaded(Request(g, Load("", mode))).posted == g.posted
  {
  }
}
