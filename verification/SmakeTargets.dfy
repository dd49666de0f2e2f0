/**
 The recursive make of the smake build system (smake_impl.py): a target is built after the
 targets it is composed of, each of them once, and a loop of targets is refused.
 */
module SmakeTargets {

  type Target = string

  /** The targets of a board; the build steps of broken targets raise an error when run. */
  datatype Config = Config(composite: map<Target, seq<Target>>, direct: set<Target>, broken: set<Target>)

  // ---------------------------------------------------------------------------
  // The graph of targets
  // ---------------------------------------------------------------------------

  predicate Edge(c: Config, a: Target, b: Target) {
    a in c.composite && b in c.composite[a]
  }

  predicate Path(c: Config, p: seq<Target>) {
    |p| > 0 && forall i :: 0 < i < |p| ==> Edge(c, p[i - 1], p[i])
  }

  ghost predicate Connects(c: Config, p: seq<Target>, a: Target, b: Target) {
    Path(c, p) && p[0] == a && p[|p| - 1] == b
  }

  ghost predicate Reaches(c: Config, a: Target, b: Target) {
    exists p :: Connects(c, p, a, b)
  }

  ghost predicate OnLoop(c: Config, a: Target) {
    exists p :: Connects(c, p, a, a) && |p| > 1
  }

  predicate Runnable(c: Config, t: Target) {
    t in c.composite || (t in c.direct && t !in c.broken)
  }

  /** Nothing that the target needs is undefined, fails or lies on a loop. */
  ghost predicate Buildable(c: Config, t: Target) {
    forall x :: Reaches(c, t, x) ==> Runnable(c, x) && !OnLoop(c, x)
  }

  // ---------------------------------------------------------------------------
  // Orders of completion
  // ---------------------------------------------------------------------------

  /** Each target once, and after all it is composed of. */
  ghost predicate InOrder(c: Config, done: seq<Target>) {
    && (forall i, j :: 0 <= i < j < |done| ==> done[i] != done[j])
    && (forall i :: 0 <= i < |done| ==> Runnable(c, done[i]))
    && (forall i, s :: 0 <= i < |done| && Edge(c, done[i], s) ==> s in done[..i])
  }

  /** A path from a completed target leads to targets completed before. */
  lemma {:induction false} PathGoesBack(c: Config, done: seq<Target>, p: seq<Target>, i: nat) returns (k: nat)
    requires InOrder(c, done) && Path(c, p) && i < |done| && done[i] == p[0]
    ensures k <= i && done[k] == p[|p| - 1] && (|p| > 1 ==> k < i)
    decreases |p|
  {
    if |p| == 1 {
      k := i;
    } else {
      assert Edge(c, p[0], p[1]);
      var j :| 0 <= j < |done[..i]| && done[..i][j] == p[1];
      k := PathGoesBack(c, done, p[1..], j);
    }
  }

  /** What is completed in order has everything it needs, and no loop. */
  lemma InOrderIsBuildable(c: Config, done: seq<Target>, t: Target)
    requires InOrder(c, done) && t in done
    ensures Buildable(c, t)
    ensures forall x :: Reaches(c, t, x) ==> x in done
  {
    var i :| 0 <= i < |done| && done[i] == t;
    forall x | Reaches(c, t, x)
      ensures x in done && Runnable(c, x) && !OnLoop(c, x)
    {
      var p :| Connects(c, p, t, x);
      var k := PathGoesBack(c, done, p, i);
      forall q | Connects(c, q, x, x)
        ensures |q| == 1
      {
        var n := PathGoesBack(c, done, q, k);
      }
    }
  }

  /** The targets with build steps of their own. */
  function Steps(c: Config, done: seq<Target>): seq<Target> {
    if |done| == 0 then []
    else
      var (front, last) := (done[..|done| - 1], done[|done| - 1]);
      Steps(c, front) + if last in c.composite then [] else [last]
  }

  lemma {:induction false} StepsAreDirect(c: Config, done: seq<Target>)
    ensures forall x :: x in Steps(c, done) <==> x in done && x !in c.composite
  {
    if |done| > 0 {
      StepsAreDirect(c, done[..|done| - 1]);
      assert done == done[..|done| - 1] + [done[|done| - 1]];
    }
  }

  lemma {:induction false} StepsRunOnce(c: Config, done: seq<Target>)
    requires forall i, j :: 0 <= i < j < |done| ==> done[i] != done[j]
    ensures forall i, j :: 0 <= i < j < |Steps(c, done)| ==> Steps(c, done)[i] != Steps(c, done)[j]
  {
    if |done| > 0 {
      var front := done[..|done| - 1];
      StepsRunOnce(c, front);
      StepsAreDirect(c, front);
      assert done[|done| - 1] !in front;
    }
  }

  lemma StepsGrow(c: Config, done: seq<Target>, t: Target)
    ensures Steps(c, done + [t]) == Steps(c, done) + if t in c.composite then [] else [t]
  {
    assert (done + [t])[..|done|] == done;
  }

  /** Adding a target whose parts are completed keeps the order. */
  lemma InOrderGrows(c: Config, done: seq<Target>, t: Target)
    requires InOrder(c, done) && t !in done && Runnable(c, t)
    requires forall s :: Edge(c, t, s) ==> s in done
    ensures InOrder(c, done + [t])
  {
    var all := done + [t];
    forall i, s | 0 <= i < |all| && Edge(c, all[i], s)
      ensures s in all[..i]
    {
      assert all[..i] == if i < |done| then done[..i] else done;
    }
  }

  /** What the first target of a path reaches also the targets before reach. */
  lemma NotBuildable(c: Config, p: seq<Target>, x: Target)
    requires Path(c, p) && x == p[|p| - 1] && (!Runnable(c, x) || OnLoop(c, x))
    ensures !Buildable(c, p[0])
  {
    assert Connects(c, p, p[0], x);
  }

  lemma EdgeReaches(c: Config, t: Target, s: Target, x: Target)
    requires Edge(c, t, s) && Reaches(c, s, x)
    ensures Reaches(c, t, x)
  {
    var p :| Connects(c, p, s, x);
    assert Connects(c, [t] + p, t, x);
  }

  lemma ReachesItself(c: Config, t: Target)
    ensures Reaches(c, t, t)
  {
    assert Connects(c, [t], t, t);
  }

  lemma PathGrows(c: Config, p: seq<Target>, t: Target)
    requires |p| > 0 ==> Path(c, p) && Edge(c, p[|p| - 1], t)
    ensures Path(c, p + [t])
  {
  }

  /** Coming back to a target on the way to it makes a loop. */
  lemma LoopFound(c: Config, p: seq<Target>, t: Target)
    requires |p| > 0 && Path(c, p) && Edge(c, p[|p| - 1], t) && t in p
    ensures OnLoop(c, t)
  {
    var k :| 0 <= k < |p| && p[k] == t;
    var q := p[k..] + [t];
    PathGrows(c, p, t);
    assert q == (p + [t])[k..];
    assert Connects(c, q, t, t);
  }

  // ---------------------------------------------------------------------------
  // make
  // ---------------------------------------------------------------------------

  class SMake {
    const config: Config
    var targetsReady: set<Target>
    var targetHistory: seq<Target>
    var ran: seq<Target>         // the build steps run so far
    ghost var done: seq<Target>  // the targets completed so far

    ghost predicate Valid()
      reads this
    {
      && InOrder(config, done) && (forall t :: t in targetsReady <==> t in done)
      && ran == Steps(config, done) && OnTheWay(targetHistory)
    }

    /** A path of different composite targets that are not built yet. */
    ghost predicate OnTheWay(history: seq<Target>)
      reads this
    {
      && (|history| > 0 ==> Path(config, history))
      && (forall i, j :: 0 <= i < j < |history| ==> history[i] != history[j])
      && (forall h :: h in history ==> h in config.composite && h !in targetsReady)
    }

    constructor (config: Config)
      ensures this.config == config && Valid() && targetHistory == [] && done == []
    {
      this.config := config;
      targetsReady, targetHistory, ran, done := {}, [], [], [];
    }

    /** Builds a target; a result of false is the end of the process with an error. */
    method Make(newTarget: Target) returns (ok: bool)
      requires Valid()
      requires |targetHistory| > 0 ==> Edge(config, targetHistory[|targetHistory| - 1], newTarget)
      modifies this
      ensures ok ==> Valid() && targetHistory == old(targetHistory) && newTarget in targetsReady
      ensures ok ==> old(done) <= done && forall x :: x in done ==> x in old(done) || Reaches(config, newTarget, x)
      ensures !ok ==> !Buildable(config, (old(targetHistory) + [newTarget])[0])
      decreases |NotIn(config.composite.Keys, targetHistory)|
    {
      hide InOrder, Reaches, Buildable, OnLoop, Path, Steps;
      ghost var way := targetHistory + [newTarget];
      PathGrows(config, targetHistory, newTarget);
      if newTarget in targetsReady {
        return true;
      }
      if newTarget in targetHistory {
        LoopFound(config, targetHistory, newTarget);
        NotBuildable(config, way, newTarget);
        return false;
      }
      targetHistory := targetHistory + [newTarget];
      ReachesItself(config, newTarget);
      if newTarget in config.composite {
        var subs := config.composite[newTarget];
        HistoryGrows(config.composite.Keys, old(targetHistory), newTarget);
        var i := 0;
        while i < |subs|
          invariant 0 <= i <= |subs| && Valid() && targetHistory == way
          invariant forall k :: 0 <= k < i ==> subs[k] in targetsReady
          invariant old(done) <= done && forall x :: x in done ==> x in old(done) || Reaches(config, newTarget, x)
        {
          ghost var before := done;
          assert Edge(config, newTarget, subs[i]);
          ok := Make(subs[i]);
          if !ok {
            assert (way + [subs[i]])[0] == way[0];
            return;
          }
          forall x | Reaches(config, subs[i], x)
            ensures Reaches(config, newTarget, x)
          {
            EdgeReaches(config, newTarget, subs[i], x);
          }
          i := i + 1;
        }
      } else if newTarget in config.direct {
        if newTarget in config.broken {
          NotBuildable(config, way, newTarget);
          return false;
        }
        ran := ran + [newTarget];
      } else {
        NotBuildable(config, way, newTarget);
        return false;
      }
      Complete(newTarget, old(targetHistory));
      return true;
    }

    /** Goes back on the way, from a target that is now built. */
    method Complete(newTarget: Target, ghost before: seq<Target>)
      requires targetHistory == before + [newTarget] && OnTheWay(before)
      requires InOrder(config, done) && (forall t :: t in targetsReady <==> t in done)
      requires newTarget !in before && newTarget !in targetsReady && Runnable(config, newTarget)
      requires forall s :: Edge(config, newTarget, s) ==> s in targetsReady
      requires ran == Steps(config, done) + if newTarget in config.composite then [] else [newTarget]
      modifies this
      ensures Valid() && targetHistory == before && done == old(done) + [newTarget]
    {
      hide InOrder, Path, Steps, Runnable, Edge;
      targetHistory := targetHistory[..|targetHistory| - 1];
      targetsReady := targetsReady + {newTarget};
      InOrderGrows(config, done, newTarget);
      StepsGrow(config, done, newTarget);
      done := done + [newTarget];
    }

    /** Ends well exactly when no name is ambiguous and all that the target needs can be built;
        then exactly that has been completed, in order, with each build step run once. */
    method Run(target: Target) returns (ok: bool)
      requires Valid() && targetHistory == [] && done == []
      modifies this
      ensures ok <==> Buildable(config, target) && forall t :: t in config.composite ==> t !in config.direct
      ensures ok ==> InOrder(config, done) && forall x :: x in done <==> Reaches(config, target, x)
      ensures ok ==> forall x :: x in ran <==> Reaches(config, target, x) && x !in config.composite
      ensures ok ==> forall i, j :: 0 <= i < j < |ran| ==> ran[i] != ran[j]
    {
      var ambiguous := exists t :: t in config.composite && t in config.direct;
      if ambiguous {
        return false;
      }
      if target !in config.direct && target !in config.composite {
        ReachesItself(config, target);
        return false;
      }
      ok := Make(target);
      if ok {
        InOrderIsBuildable(config, done, target);
        StepsAreDirect(config, done);
        StepsRunOnce(config, done);
      }
    }
  }

  function NotIn(names: set<Target>, history: seq<Target>): set<Target> {
    set n | n in names && n !in history
  }

  lemma HistoryGrows(names: set<Target>, history: seq<Target>, t: Target)
    requires t in names && t !in history
    ensures |NotIn(names, history + [t])| < |NotIn(names, history)|
  {
    var before, after := NotIn(names, history), NotIn(names, history + [t]);
    assert after == before - {t} && t in before;
  }
}
