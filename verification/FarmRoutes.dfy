/** The farming script's supervision of its routes: misses, restarts and node statistics. */
module FarmRoutes {

  /**
   * How visiting a node ends: done in some time, not found, skipped in fast mode, or broken
   * off by an exception of the node or of the recovery after a miss.
   */
  datatype Outcome = Completed(duration: int) | NotFound | OutOfTime | BrokenOff

  /** How a route ends, and a run: an exception of its own is counted nowhere. */
  datatype Ending = Finished | Missed | BrokenOff

  datatype Visit = Visit(node: nat, outcome: Outcome)

  /** What the statistics are about, in the order it happened. */
  datatype Mark = RunStarted | NodeDone(node: nat, duration: int) | RouteMissed

  const RESTART_AFTER: nat := 3

  // ---------------------------------------------------------------------------
  // What the history says
  // ---------------------------------------------------------------------------

  /** Routes missed since the last completed node or the start of the run. */
  function MissesSince(history: seq<Mark>): nat {
    if history == [] || !history[|history| - 1].RouteMissed? then 0
    else 1 + MissesSince(history[..|history| - 1])
  }

  function TimesDone(history: seq<Mark>, node: nat): nat {
    if history == [] then 0
    else
      var last := history[|history| - 1];
      TimesDone(history[..|history| - 1], node) + (if last.NodeDone? && last.node == node then 1 else 0)
  }

  function TimeSpent(history: seq<Mark>, node: nat): int {
    if history == [] then 0
    else
      var last := history[|history| - 1];
      TimeSpent(history[..|history| - 1], node) + (if last.NodeDone? && last.node == node then last.duration else 0)
  }

  /** The marks a route leaves: its completed nodes up to the first one it does not get past. */
  function RouteMarks(visits: seq<Visit>): seq<Mark>
    decreases |visits|
  {
    if visits == [] then []
    else match visits[0].outcome
      case Completed(duration) => [NodeDone(visits[0].node, duration)] + RouteMarks(visits[1..])
      case OutOfTime => RouteMarks(visits[1..])
      case NotFound => [RouteMissed]
      case BrokenOff => []
  }

  /** The route ends at the first visit that neither completes nor is skipped. */
  function RouteEnding(visits: seq<Visit>): (ending: Ending)
    ensures ending == Finished <==>
            forall i :: 0 <= i < |visits| ==> visits[i].outcome.Completed? || visits[i].outcome.OutOfTime?
    decreases |visits|
  {
    if visits == [] then Finished
    else match visits[0].outcome
      case NotFound => Missed
      case BrokenOff => Ending.BrokenOff
      case _ =>
        assert forall i :: 0 <= i < |visits[1..]| ==> visits[1..][i] == visits[i + 1];
        assert forall i :: 0 < i < |visits| ==> visits[i] == visits[1..][i - 1];
        RouteEnding(visits[1..])
  }

  /** The marks so far call for a restart after a route with this ending. */
  predicate CallsForRestart(history: seq<Mark>, ending: Ending) {
    ending == Missed && MissesSince(history) >= RESTART_AFTER
  }

  /** The marks of a run: route after route, until a restart or an exception. */
  function RunMarks(history: seq<Mark>, routes: seq<seq<Visit>>): seq<Mark>
    decreases |routes|
  {
    if routes == [] then history
    else
      var next, ending := history + RouteMarks(routes[0]), RouteEnding(routes[0]);
      if CallsForRestart(next, ending) || ending.BrokenOff? then next else RunMarks(next, routes[1..])
  }

  /** A run is broken off by the first route that is, unless a restart comes before it. */
  predicate RunBrokenOff(history: seq<Mark>, routes: seq<seq<Visit>>)
    decreases |routes|
  {
    routes != [] &&
    var next, ending := history + RouteMarks(routes[0]), RouteEnding(routes[0]);
    !CallsForRestart(next, ending) && (ending.BrokenOff? || RunBrokenOff(next, routes[1..]))
  }

  lemma MarkStep(history: seq<Mark>, mark: Mark)
    ensures MissesSince(history + [mark]) == if mark.RouteMissed? then MissesSince(history) + 1 else 0
    ensures forall node: nat ::
      TimesDone(history + [mark], node)
      == TimesDone(history, node) + (if mark.NodeDone? && mark.node == node then 1 else 0)
    ensures forall node: nat ::
      TimeSpent(history + [mark], node)
      == TimeSpent(history, node) + (if mark.NodeDone? && mark.node == node then mark.duration else 0)
  {
    assert (history + [mark])[..|history|] == history;
  }

  /** Within a run the misses never pass the limit: a restart comes exactly when they reach it. */
  lemma {:induction false} MissesBounded(history: seq<Mark>, routes: seq<seq<Visit>>)
    requires MissesSince(history) < 3
    ensures MissesSince(RunMarks(history, routes)) <= 3
    decreases |routes|
  {
    if routes != [] {
      RouteAddsOneMiss(history, routes[0]);
      var next := history + RouteMarks(routes[0]);
      if MissesSince(next) < RESTART_AFTER && !RouteEnding(routes[0]).BrokenOff? {
        MissesBounded(next, routes[1..]);
      }
    }
  }

  lemma {:induction false} RouteAddsOneMiss(history: seq<Mark>, visits: seq<Visit>)
    ensures MissesSince(history + RouteMarks(visits)) <= MissesSince(history) + 1
    ensures RouteEnding(visits) != Missed ==> MissesSince(history + RouteMarks(visits)) <= MissesSince(history)
    decreases |visits|
  {
    if visits == [] {
      assert history + RouteMarks(visits) == history;
    } else {
      match visits[0].outcome {
        case Completed(duration) =>
          var mark := NodeDone(visits[0].node, duration);
          MarkStep(history, mark);
          assert history + RouteMarks(visits) == (history + [mark]) + RouteMarks(visits[1..]);
          RouteAddsOneMiss(history + [mark], visits[1..]);
        case OutOfTime => RouteAddsOneMiss(history, visits[1..]);
        case NotFound => MarkStep(history, RouteMissed);
        case BrokenOff => assert history + RouteMarks(visits) == history;
      }
    }
  }

  // ---------------------------------------------------------------------------
  // The script's counters
  // ---------------------------------------------------------------------------

  class Farm {
    var missNodeCount: nat
    const nodeSuccessCount: array<nat>
    const nodeTimeCost: array<int>
    ghost var history: seq<Mark>

    /** The counters agree with the history. */
    ghost predicate Valid()
      reads this, nodeSuccessCount, nodeTimeCost
    {
      && nodeSuccessCount.Length == nodeTimeCost.Length
      && missNodeCount == MissesSince(history)
      && (forall n :: 0 <= n < nodeSuccessCount.Length ==> nodeSuccessCount[n] == TimesDone(history, n))
      && (forall n :: 0 <= n < nodeTimeCost.Length ==> nodeTimeCost[n] == TimeSpent(history, n))
    }

    constructor (nodes: nat)
      ensures Valid() && history == [] && nodeSuccessCount.Length == nodes
      ensures fresh(nodeSuccessCount) && fresh(nodeTimeCost)
    {
      missNodeCount, history := 0, [];
      nodeSuccessCount := new nat[nodes](_ => 0);
      nodeTimeCost := new int[nodes](_ => 0);
    }

    method InitRun()
      requires Valid()
      modifies this
      ensures Valid() && history == old(history) + [RunStarted] && missNodeCount == 0
    {
      MarkStep(history, RunStarted);
      missNodeCount := 0;
      history := history + [RunStarted];
    }

    /** Visits a node; an exception it ends with is the result. */
    method FarmNode(visit: Visit) returns (ending: Ending)
      requires Valid() && visit.node < nodeSuccessCount.Length
      modifies this, nodeSuccessCount, nodeTimeCost
      ensures Valid() && ending == RouteEnding([visit])
      ensures var outcome := visit.outcome;
        history == old(history) + (if outcome.Completed? then [NodeDone(visit.node, outcome.duration)] else [])
    {
      match visit.outcome {
        case OutOfTime => return Finished;
        case NotFound => return Missed;
        case BrokenOff => return Ending.BrokenOff;
        case Completed(duration) =>
          MarkStep(history, NodeDone(visit.node, duration));
          nodeSuccessCount[visit.node] := nodeSuccessCount[visit.node] + 1;
          nodeTimeCost[visit.node] := nodeTimeCost[visit.node] + duration;
          missNodeCount := 0;
          history := history + [NodeDone(visit.node, duration)];
          return Finished;
      }
    }

    /**
     * Walks a route; `restart` tells that the restart exception was thrown, `brokenOff` that
     * the exception of a visit, or of the recovery after a miss, was passed on.
     */
    method FarmRoute(visits: seq<Visit>) returns (restart: bool, brokenOff: bool)
      requires Valid() && forall i :: 0 <= i < |visits| ==> visits[i].node < nodeSuccessCount.Length
      modifies this, nodeSuccessCount, nodeTimeCost
      ensures Valid() && history == old(history) + RouteMarks(visits)
      ensures restart <==> CallsForRestart(history, RouteEnding(visits))
      ensures brokenOff <==> RouteEnding(visits).BrokenOff?
    {
      hide MissesSince, TimesDone, TimeSpent;
      var i := 0;
      assert visits[0..] == visits;
      while i < |visits|
        invariant 0 <= i <= |visits| && Valid()
        invariant history + RouteMarks(visits[i..]) == old(history) + RouteMarks(visits)
        invariant RouteEnding(visits[i..]) == RouteEnding(visits)
      {
        ghost var before := history;
        var ending := FarmNode(visits[i]);
        assert visits[i..][1..] == visits[i + 1..] && visits[i..][0] == visits[i];
        if ending == Missed {
          MarkStep(history, RouteMissed);
          missNodeCount := missNodeCount + 1;
          history := history + [RouteMissed];
          assert history == before + RouteMarks(visits[i..]);
          return missNodeCount >= RESTART_AFTER, false;
        } else if ending.BrokenOff? {
          assert history == before + RouteMarks(visits[i..]);
          return false, true;
        }
        assert history + RouteMarks(visits[i + 1..]) == before + RouteMarks(visits[i..]);
        i := i + 1;
      }
      return false, false;
    }

    /** One run over all routes, cut short by a restart or by an exception passed on. */
    method FarmPoints(routes: seq<seq<Visit>>) returns (restart: bool, brokenOff: bool)
      requires Valid()
      requires forall r, i :: 0 <= r < |routes| && 0 <= i < |routes[r]| ==> routes[r][i].node < nodeSuccessCount.Length
      modifies this, nodeSuccessCount, nodeTimeCost
      ensures Valid() && history == RunMarks(old(history) + [RunStarted], routes)
      ensures restart <==> missNodeCount == 3
      ensures brokenOff <==> RunBrokenOff(old(history) + [RunStarted], routes)
    {
      hide RouteMarks, TimesDone, TimeSpent;
      InitRun();
      ghost var begun := history;
      var r := 0;
      assert routes[0..] == routes;
      while r < |routes|
        invariant 0 <= r <= |routes| && Valid() && missNodeCount < RESTART_AFTER
        invariant RunMarks(history, routes[r..]) == RunMarks(begun, routes)
        invariant RunBrokenOff(history, routes[r..]) == RunBrokenOff(begun, routes)
      {
        RouteAddsOneMiss(history, routes[r]);
        assert routes[r..][1..] == routes[r + 1..];
        restart, brokenOff := FarmRoute(routes[r]);
        if restart || brokenOff {
          return;
        }
        r := r + 1;
      }
      restart, brokenOff := false, false;
    }
  }
}
