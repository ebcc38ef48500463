/**
 The nuke of one StatefulSet (pkg/nuker/nuker.go): a get/modify/put that takes the Bee container
 down, and a deferred get/modify/put that rolls it back, each retried on version conflicts while
 any number of other writers commit to the same object. The object's history is a log of commits,
 the writes of others are an arbitrary script, and the results are about every log a run can leave.
 */
module StatefulSetNuke {
  import opened Wrappers
  import PodLifecycle

  datatype Strategy = Strategy(kind: string, rollingUpdate: Option<int>)

  datatype Probe = Probe(path: string, periodSeconds: int)

  // `rest` stands for every field the nuker never names.
  datatype Container = Container(name: string, command: seq<string>, image: string, probe: Option<Probe>, rest: string)

  datatype StatefulSet = StatefulSet(strategy: Strategy, replicas: Option<int>, containers: seq<Container>,
                                     rest: string)

  const BEE := "bee"
  const ON_DELETE := Strategy("OnDelete", None)

  // The attempts of retry.DefaultRetry.
  const STEPS := 5

  //// The two edits

  function BeeIndex(cs: seq<Container>): (i: int)
    ensures -1 <= i < |cs|
    ensures i >= 0 ==> cs[i].name == BEE && forall k :: 0 <= k < i ==> cs[k].name != BEE
    ensures i < 0 ==> forall k :: 0 <= k < |cs| ==> cs[k].name != BEE
  {
    if cs == [] then -1
    else if cs[0].name == BEE then 0
    else
      var tail := BeeIndex(cs[1..]);
      assert forall k :: 1 <= k < |cs| ==> cs[k] == cs[1..][k - 1];
      if tail < 0 then -1 else tail + 1
  }

  method BeeContainerIndex(cs: seq<Container>) returns (i: int)
    ensures i == BeeIndex(cs)
    ensures i >= 0 ==> i < |cs| && cs[i].name == "bee"
    ensures forall k :: 0 <= k < (if i >= 0 then i else |cs|) ==> cs[k].name != "bee"
  {
    for k := 0 to |cs|
      invariant forall j :: 0 <= j < k ==> cs[j].name != BEE
    {
      if cs[k].name == BEE {
        return k;
      }
    }
    return -1;
  }

  // The probe the original gives to a name; as in a map filled in order, the last entry counts.
  function OriginalProbe(original: seq<Container>, name: string): Option<Option<Probe>> {
    if original == [] then None
    else if original[|original| - 1].name == name then Some(original[|original| - 1].probe)
    else OriginalProbe(original[..|original| - 1], name)
  }

  function WithOriginalProbe(c: Container, original: seq<Container>): Container {
    var saved := OriginalProbe(original, c.name);
    if saved.Some? then c.(probe := saved.value) else c
  }

  function RestoreProbes(target: seq<Container>, original: seq<Container>): seq<Container> {
    seq(|target|, i requires 0 <= i < |target| => WithOriginalProbe(target[i], original))
  }

  function StripProbes(cs: seq<Container>): seq<Container> {
    seq(|cs|, i requires 0 <= i < |cs| => cs[i].(probe := None))
  }

  datatype Edit =
    | TakeDown(command: seq<string>)
    | Restore(original: StatefulSet, command: seq<string>, image: string)

  function Commanded(cs: seq<Container>, bee: nat, command: seq<string>): seq<Container>
    requires bee < |cs|
  {
    cs[bee := cs[bee].(command := command)]
  }

  function TakenDown(cs: seq<Container>, bee: nat, command: seq<string>): seq<Container>
    requires bee < |cs|
  {
    StripProbes(Commanded(cs, bee, command))
  }

  function PutBack(cs: seq<Container>, bee: nat, command: seq<string>, original: seq<Container>,
                   image: string): seq<Container>
    requires bee < |cs|
  {
    var probed := RestoreProbes(Commanded(cs, bee, command), original);
    if image != "" then probed[bee := probed[bee].(image := image)] else probed
  }

  // The specification both closures put; None when there is no Bee container to edit.
  function Apply(edit: Edit, ss: StatefulSet): Option<StatefulSet> {
    var cs := ss.containers;
    var bee := BeeIndex(cs);
    if bee < 0 then None
    else
      match edit
      case TakeDown(command) => Some(ss.(strategy := ON_DELETE, containers := TakenDown(cs, bee, command)))
      case Restore(original, command, image) =>
        Some(ss.(strategy := original.strategy, replicas := original.replicas,
                 containers := PutBack(cs, bee, command, original.containers, image)))
  }

  method RestoreReadinessProbes(target: array<Container>, original: seq<Container>)
    modifies target
    ensures target[..] == RestoreProbes(old(target[..]), original)
  {
    var probes: map<string, Option<Probe>> := map[];
    for i := 0 to |original|
      invariant forall name :: OriginalProbe(original[..i], name) == if name in probes then Some(probes[name]) else None
    {
      assert original[..i + 1][..i] == original[..i];
      probes := probes[original[i].name := original[i].probe];
    }
    assert original[..|original|] == original;
    for i := 0 to target.Length
      invariant forall k :: 0 <= k < i ==> target[k] == WithOriginalProbe(old(target[k]), original)
      invariant forall k :: i <= k < target.Length ==> target[k] == old(target[k])
    {
      if target[i].name in probes {
        target[i] := target[i].(probe := probes[target[i].name]);
      }
    }
  }

  // Editing the fetched copy in place, as the closures do.
  method EditCopy(edit: Edit, ss: StatefulSet) returns (r: Option<StatefulSet>)
    ensures r == Apply(edit, ss)
  {
    var bee := BeeContainerIndex(ss.containers);
    if bee < 0 {
      return None;
    }
    var cs := new Container[|ss.containers|](i requires 0 <= i < |ss.containers| => ss.containers[i]);
    assert cs[..] == ss.containers;
    cs[bee] := cs[bee].(command := edit.command);
    ghost var commanded := cs[..];
    assert commanded == Commanded(ss.containers, bee, edit.command);
    match edit
    case TakeDown(_) =>
      for i := 0 to cs.Length
        invariant forall k :: 0 <= k < i ==> cs[k] == commanded[k].(probe := None)
        invariant forall k :: i <= k < cs.Length ==> cs[k] == commanded[k]
      {
        cs[i] := cs[i].(probe := None);
      }
      assert cs[..] == StripProbes(commanded);
      return Some(ss.(strategy := ON_DELETE, containers := cs[..]));
    case Restore(original, _, image) =>
      RestoreReadinessProbes(cs, original.containers);
      ghost var probed := cs[..];
      if image != "" {
        cs[bee] := cs[bee].(image := image);
        assert cs[..] == probed[bee := probed[bee].(image := image)];
      }
      return Some(ss.(strategy := original.strategy, replicas := original.replicas, containers := cs[..]));
  }

  //// The versioned store and its log

  // `author` is the nuker's edit, or None for a commit of any other writer.
  datatype Commit = Commit(author: Option<Edit>, spec: StatefulSet)

  function Others(writes: seq<StatefulSet>): seq<Commit> {
    seq(|writes|, i requires 0 <= i < |writes| => Commit(None, writes[i]))
  }

  function Latest(log: seq<Commit>): StatefulSet
    requires log != []
  {
    log[|log| - 1].spec
  }

  // What happens to one put besides the version check: nothing, a refusal for another reason, or a
  // reply that gets lost after the server has acted.
  datatype Fault = NoFault | Refused | ReplyLost

  datatype Reply = Accepted | Conflict | Failed

  // One pass of a retried closure: what others commit before its get and before its put, and which
  // calls fail.
  datatype Attempt = Attempt(beforeGet: seq<StatefulSet>, getFails: bool, beforePut: seq<StatefulSet>, put: Fault)

  class ApiServer {
    var spec: StatefulSet
    var version: nat
    ghost var log: seq<Commit>

    ghost predicate Valid()
      reads this
    {
      log != [] && version == |log| && spec == Latest(log)
    }

    method OthersWrite(writes: seq<StatefulSet>)
      requires Valid()
      modifies this
      ensures Valid() && log == old(log) + Others(writes)
    {
      for i := 0 to |writes|
        invariant Valid() && log == old(log) + Others(writes[..i])
      {
        spec, version := writes[i], version + 1;
        log := log + [Commit(None, writes[i])];
      }
      assert writes[..|writes|] == writes;
    }

    method Put(ss: StatefulSet, expected: nat, fault: Fault, ghost author: Edit) returns (reply: Reply)
      requires Valid()
      modifies this
      ensures Valid()
      ensures log == if fault.Refused? || expected != |old(log)| then old(log)
                     else old(log) + [Commit(Some(author), ss)]
      ensures reply == if !fault.NoFault? then Failed else if expected != |old(log)| then Conflict else Accepted
    {
      if fault.Refused? {
        return Failed;
      }
      reply := Conflict;
      if expected == version {
        spec, version := ss, version + 1;
        log := log + [Commit(Some(author), ss)];
        reply := Accepted;
      }
      if fault.ReplyLost? {
        reply := Failed;
      }
    }
  }

  function TryOnce(log: seq<Commit>, edit: Edit, a: Attempt): (r: (seq<Commit>, Reply))
    requires log != []
    ensures log <= r.0
  {
    var seen := log + Others(a.beforeGet);
    if a.getFails then (seen, Failed)
    else
      var edited := Apply(edit, Latest(seen));
      if edited.None? then (seen, Failed)
      else
        var moved := seen + Others(a.beforePut);
        var stale := |moved| != |seen|;
        (if a.put.Refused? || stale then moved else moved + [Commit(Some(edit), edited.value)],
         if !a.put.NoFault? then Failed else if stale then Conflict else Accepted)
  }

  function Retry(log: seq<Commit>, edit: Edit, attempts: seq<Attempt>): (r: (seq<Commit>, Reply))
    requires log != []
    ensures log <= r.0
    decreases |attempts|
  {
    if attempts == [] then (log, Conflict)
    else
      var first := TryOnce(log, edit, attempts[0]);
      if first.1 == Conflict then Retry(first.0, edit, attempts[1..]) else first
  }

  method RetryOnConflict(server: ApiServer, edit: Edit, attempts: seq<Attempt>) returns (reply: Reply)
    requires server.Valid()
    requires |attempts| == 5
    modifies server
    ensures server.Valid()
    ensures (server.log, reply) == Retry(old(server.log), edit, attempts)
  {
    reply := Conflict;
    var k := 0;
    while k < STEPS && reply == Conflict
      invariant 0 <= k <= STEPS && server.Valid()
      invariant reply == Conflict ==>
                  Retry(old(server.log), edit, attempts) == Retry(server.log, edit, attempts[k..])
      invariant reply != Conflict ==> Retry(old(server.log), edit, attempts) == (server.log, reply)
    {
      var a := attempts[k];
      assert attempts[k..][1..] == attempts[k + 1..];
      ghost var start := server.log;
      k := k + 1;
      server.OthersWrite(a.beforeGet);
      if a.getFails {
        reply := Failed;
      } else {
        var latest, version := server.spec, server.version;
        var edited := EditCopy(edit, latest);
        if edited.None? {
          reply := Failed;
        } else {
          server.OthersWrite(a.beforePut);
          reply := server.Put(edited.value, version, a.put, edit);
        }
      }
      assert (server.log, reply) == TryOnce(start, edit, a);
    }
  }

  //// The whole cycle

  datatype Settings = Settings(nukeArgs: seq<string>, restartArgs: seq<string>, image: string)

  // What happens to one pod of the set: whether its deletion succeeds, and the events of its watch
  // while it runs the nuke, or the polls of its phase after the rollback.
  datatype PodRun = PodRun(deleted: bool, events: seq<PodLifecycle.Event>)
  datatype PodRestart = PodRestart(deleted: bool, polls: seq<PodLifecycle.Poll>)

  // Everything outside the nuker's control during one cycle: the attempts of its two updates, what
  // others commit while the pods run the nuke, and what happens to the pods.
  datatype Run = Run(nuke: seq<Attempt>, during: seq<StatefulSet>, pods: seq<PodRun>,
                     rollback: seq<Attempt>, restarts: seq<PodRestart>)

  ghost predicate Nuked(pod: PodRun) {
    pod.deleted && PodLifecycle.Completes(pod.events, BEE)
  }

  ghost predicate AllCompleted(pods: seq<PodRun>) {
    forall i :: 0 <= i < |pods| ==> Nuked(pods[i])
  }

  ghost predicate AllRestarted(restarts: seq<PodRestart>) {
    forall i :: 0 <= i < |restarts| ==> restarts[i].deleted && PodLifecycle.ComesUp(restarts[i].polls)
  }

  method WatchPod(pod: PodRun) returns (ok: bool)
    ensures ok <==> Nuked(pod)
  {
    var outcome := PodLifecycle.WaitForPodRecreationAndCompletion(pod.events, BEE);
    ok := pod.deleted && outcome == PodLifecycle.Success;
  }

  // One watcher per pod and one deleter; all must succeed.
  method RecreateAndComplete(pods: seq<PodRun>) returns (ok: bool)
    ensures ok <==> AllCompleted(pods)
  {
    ok := true;
    for i := 0 to |pods|
      invariant ok <==> forall k :: 0 <= k < i ==> Nuked(pods[k])
    {
      var one := WatchPod(pods[i]);
      ok := ok && one;
    }
  }

  method RecreateAndRun(restarts: seq<PodRestart>) returns (ok: bool)
    ensures ok <==> AllRestarted(restarts)
  {
    ok := true;
    for i := 0 to |restarts|
      invariant ok <==> forall k :: 0 <= k < i ==> restarts[k].deleted && PodLifecycle.ComesUp(restarts[k].polls)
    {
      var up := PodLifecycle.WaitForRunning(restarts[i].polls);
      ok := ok && restarts[i].deleted && up;
    }
  }

  function NukeCommand(forgetOverlay: bool, forgetStamps: bool): seq<string> {
    ["bee", "db", "nuke", "--config=.bee.yaml", "--data-dir=/home/bee/.bee",
     "--forget-overlay=" + (if forgetOverlay then "true" else "false"),
     "--forget-stamps=" + (if forgetStamps then "true" else "false")]
  }

  // Each flag of the command is the one asked for.
  lemma NukeCommandFlags(forgetOverlay: bool, forgetStamps: bool)
    ensures var command := NukeCommand(forgetOverlay, forgetStamps);
            && command[..3] == ["bee", "db", "nuke"]
            && ("--forget-overlay=true" in command <==> forgetOverlay)
            && ("--forget-overlay=false" in command <==> !forgetOverlay)
            && ("--forget-stamps=true" in command <==> forgetStamps)
            && ("--forget-stamps=false" in command <==> !forgetStamps)
  {
    var command := NukeCommand(forgetOverlay, forgetStamps);
    FlagTexts();
    assert command[5] in command && command[6] in command;
    assert forall i :: 0 <= i < 5 ==> |command[i]| < 9 || command[i][2] != 'f';
    assert forall i :: 0 <= i < 7 && i != 5 ==> |command[i]| < 11 || command[i][9] != 'o';
  }

  lemma FlagTexts()
    ensures "--forget-overlay=" + "true" == "--forget-overlay=true"
    ensures "--forget-overlay=" + "false" == "--forget-overlay=false"
    ensures "--forget-stamps=" + "true" == "--forget-stamps=true"
    ensures "--forget-stamps=" + "false" == "--forget-stamps=false"
  {
  }

  function NukeEdit(s: Settings): Edit {
    TakeDown(s.nukeArgs)
  }

  function RollbackEdit(snapshot: StatefulSet, s: Settings): Edit {
    Restore(snapshot, s.restartArgs, s.image)
  }

  // The log after the cycle, whether it reports success, whether its rollback was accepted, and
  // whether the pods came up again after it.
  datatype Outcome = Outcome(log: seq<Commit>, ok: bool, rolledBack: bool, restarted: bool)

  // The log when the deferred rollback starts, and whether the take-down was accepted.
  function BeforeRollback(log: seq<Commit>, s: Settings, run: Run): (r: (seq<Commit>, bool))
    requires log != []
    ensures log <= r.0
  {
    var nuke := Retry(log, NukeEdit(s), run.nuke);
    if nuke.1 == Accepted then (nuke.0 + Others(run.during), true) else (nuke.0, false)
  }

  ghost function Cycle(log: seq<Commit>, snapshot: StatefulSet, s: Settings, run: Run): (r: Outcome)
    requires log != []
    ensures log <= r.log
  {
    if BeeIndex(snapshot.containers) < 0 then Outcome(log, false, false, false)
    else
      var middle := BeforeRollback(log, s, run);
      var rollback := Retry(middle.0, RollbackEdit(snapshot, s), run.rollback);
      Outcome(rollback.0, middle.1 && AllCompleted(run.pods), rollback.1 == Accepted,
              rollback.1 == Accepted && AllRestarted(run.restarts))
  }

  method UpdateAndRollback(server: ApiServer, snapshot: StatefulSet, restartArgs: seq<string>, image: string,
                           forgetOverlay: bool, forgetStamps: bool, run: Run)
    returns (ok: bool, rolledBack: bool, restarted: bool)
    requires server.Valid()
    requires |run.nuke| == 5 && |run.rollback| == 5
    requires |run.pods| == |run.restarts|
    requires |run.pods| == if snapshot.replicas.Some? && snapshot.replicas.value > 0 then snapshot.replicas.value else 0
    modifies server
    ensures server.Valid()
    ensures var s := Settings(NukeCommand(forgetOverlay, forgetStamps), restartArgs, image);
            Outcome(server.log, ok, rolledBack, restarted) == Cycle(old(server.log), snapshot, s, run)
  {
    var s := Settings(NukeCommand(forgetOverlay, forgetStamps), restartArgs, image);
    var bee := BeeContainerIndex(snapshot.containers);
    if bee < 0 {
      return false, false, false;
    }
    var reply := RetryOnConflict(server, NukeEdit(s), run.nuke);
    ok := false;
    if reply == Accepted {
      server.OthersWrite(run.during);
      ok := RecreateAndComplete(run.pods);
    }
    // the deferred function: it runs whatever happened above
    var back := RetryOnConflict(server, RollbackEdit(snapshot, s), run.rollback);
    rolledBack := back == Accepted;
    restarted := false;
    if rolledBack {
      restarted := RecreateAndRun(run.restarts);
    }
  }

  //// No committed change of another writer is lost

  // From index `start` on, each commit of the nuker edits the commit directly before it.
  ghost predicate Disciplined(log: seq<Commit>, start: nat) {
    forall i :: start <= i < |log| && log[i].author.Some? ==>
      i > 0 && Apply(log[i].author.value, log[i - 1].spec) == Some(log[i].spec)
  }

  lemma DisciplinedJoin(a: seq<Commit>, b: seq<Commit>, start: nat)
    requires start <= |a| && a <= b
    requires Disciplined(a, start) && Disciplined(b, |a|)
    ensures Disciplined(b, start)
  {
  }

  lemma {:induction false} RetryDisciplined(log: seq<Commit>, edit: Edit, attempts: seq<Attempt>)
    requires log != []
    ensures Disciplined(Retry(log, edit, attempts).0, |log|)
    decreases |attempts|
  {
    if attempts != [] {
      var first := TryOnce(log, edit, attempts[0]);
      TryOnceDisciplined(log, edit, attempts[0]);
      if first.1 == Conflict {
        RetryDisciplined(first.0, edit, attempts[1..]);
        DisciplinedJoin(first.0, Retry(log, edit, attempts).0, |log|);
      }
    }
  }

  lemma TryOnceDisciplined(log: seq<Commit>, edit: Edit, a: Attempt)
    requires log != []
    ensures Disciplined(TryOnce(log, edit, a).0, |log|)
  {
  }

  lemma CycleDisciplined(log: seq<Commit>, snapshot: StatefulSet, s: Settings, run: Run)
    requires log != []
    ensures Disciplined(Cycle(log, snapshot, s, run).log, |log|)
  {
    if BeeIndex(snapshot.containers) >= 0 {
      var middle := BeforeRollback(log, s, run).0;
      DisciplinedBeforeRollback(log, s, run);
      RetryDisciplined(middle, RollbackEdit(snapshot, s), run.rollback);
      DisciplinedJoin(middle, Cycle(log, snapshot, s, run).log, |log|);
    }
  }

  lemma DisciplinedBeforeRollback(log: seq<Commit>, s: Settings, run: Run)
    requires log != []
    ensures Disciplined(BeforeRollback(log, s, run).0, |log|)
  {
    var nuke := Retry(log, NukeEdit(s), run.nuke);
    RetryDisciplined(log, NukeEdit(s), run.nuke);
    DisciplinedJoin(nuke.0, BeforeRollback(log, s, run).0, |log|);
  }

  // Which of the fields that not every edit writes are written.
  datatype Written = Written(replicas: bool, image: bool)

  predicate WritesAtMost(edit: Edit, w: Written) {
    edit.Restore? ==> w.replicas && (edit.image != "" ==> w.image)
  }

  // A container without what is written of it: the probe of any, command and perhaps image of Bee's.
  function Remainder(c: Container, bee: bool, w: Written): Container {
    if !bee then c.(probe := None)
    else c.(command := [], probe := None, image := if w.image then "" else c.image)
  }

  function Remainders(cs: seq<Container>, w: Written): seq<Container> {
    seq(|cs|, i requires 0 <= i < |cs| => Remainder(cs[i], i == BeeIndex(cs), w))
  }

  // A specification with the written fields blanked out.
  function Untouched(ss: StatefulSet, w: Written): StatefulSet {
    ss.(strategy := ON_DELETE, replicas := if w.replicas then None else ss.replicas,
        containers := Remainders(ss.containers, w))
  }

  lemma EditKeepsUntouched(edit: Edit, ss: StatefulSet, w: Written)
    requires Apply(edit, ss).Some? && WritesAtMost(edit, w)
    ensures Untouched(Apply(edit, ss).value, w) == Untouched(ss, w)
  {
    var bee := BeeIndex(ss.containers);
    match edit
    case TakeDown(command) => TakenDownRemainders(ss.containers, bee, command, w);
    case Restore(original, command, image) =>
      PutBackRemainders(ss.containers, bee, command, original.containers, image, w);
  }

  lemma TakenDownRemainders(cs: seq<Container>, bee: nat, command: seq<string>, w: Written)
    requires bee == BeeIndex(cs)
    ensures Remainders(TakenDown(cs, bee, command), w) == Remainders(cs, w)
  {
    SameNamesSameBee(cs, TakenDown(cs, bee, command));
  }

  lemma PutBackRemainders(cs: seq<Container>, bee: nat, command: seq<string>, original: seq<Container>,
                          image: string, w: Written)
    requires bee == BeeIndex(cs) && (image != "" ==> w.image)
    ensures Remainders(PutBack(cs, bee, command, original, image), w) == Remainders(cs, w)
  {
    var put := PutBack(cs, bee, command, original, image);
    SameNamesSameBee(cs, put);
    forall i | 0 <= i < |cs|
      ensures Remainder(put[i], i == bee, w) == Remainder(cs[i], i == bee, w)
    {
      PutBackContainer(cs, bee, command, original, image, i);
    }
  }

  lemma PutBackContainer(cs: seq<Container>, bee: nat, command: seq<string>, original: seq<Container>,
                         image: string, i: nat)
    requires bee < |cs| && i < |cs|
    ensures var put := PutBack(cs, bee, command, original, image)[i];
            put == if i != bee then cs[i].(probe := put.probe)
                   else cs[i].(command := command, probe := put.probe,
                               image := if image != "" then image else cs[i].image)
  {
  }

  // The last commit not made by this cycle: another writer's, or the one the cycle started from.
  function LastForeign(log: seq<Commit>, start: nat): (i: nat)
    requires 0 < start <= |log|
    ensures start - 1 <= i < |log|
    ensures i >= start ==> log[i].author.None?
    ensures forall k :: i < k < |log| ==> log[k].author.Some?
  {
    if |log| == start || log[|log| - 1].author.None? then |log| - 1
    else
      var i := LastForeign(log[..|log| - 1], start);
      i
  }

  // Each commit of the nuker after index k writes at most w.
  ghost predicate OwnCommitsWrite(log: seq<Commit>, k: nat, w: Written) {
    forall i :: k < i < |log| && log[i].author.Some? ==> WritesAtMost(log[i].author.value, w)
  }

  lemma {:induction false} DisciplinedKeepsForeign(log: seq<Commit>, start: nat, w: Written)
    requires 0 < start <= |log|
    requires Disciplined(log, start) && OwnCommitsWrite(log, LastForeign(log, start), w)
    ensures Untouched(Latest(log), w) == Untouched(log[LastForeign(log, start)].spec, w)
    decreases |log|
  {
    if |log| != start && log[|log| - 1].author.Some? {
      var shorter := log[..|log| - 1];
      EditKeepsUntouched(log[|log| - 1].author.value, Latest(shorter), w);
      DisciplinedKeepsForeign(shorter, start, w);
    }
  }

  // What the commits of a cycle write after the last commit of another writer: the replicas only if
  // the newest commit is the rollback, the image only if one is configured as well.
  function WrittenBy(log: seq<Commit>, snapshot: StatefulSet, s: Settings): Written
    requires log != []
  {
    var rolledBack := log[|log| - 1].author == Some(RollbackEdit(snapshot, s));
    Written(rolledBack, rolledBack && s.image != "")
  }

  lemma CycleWrites(log: seq<Commit>, start: nat, snapshot: StatefulSet, s: Settings)
    requires 0 < start <= |log| && DownThenUp(start, log, NukeEdit(s), RollbackEdit(snapshot, s))
    ensures OwnCommitsWrite(log, LastForeign(log, start), WrittenBy(log, snapshot, s))
  {
    forall i | LastForeign(log, start) < i < |log| && log[i].author.Some?
      ensures WritesAtMost(log[i].author.value, WrittenBy(log, snapshot, s))
    {
      assert i < |log| - 1 ==> log[i].author.value == NukeEdit(s);
    }
  }

  // Whatever others commit and whatever fails, the object ends with everything the last other
  // writer gave it, outside the few fields the nuker writes after that.
  lemma NoForeignChangeLost(log: seq<Commit>, snapshot: StatefulSet, s: Settings, run: Run)
    requires log != []
    ensures var after := Cycle(log, snapshot, s, run).log;
            var w := WrittenBy(after, snapshot, s);
            Untouched(Latest(after), w) == Untouched(after[LastForeign(after, |log|)].spec, w)
  {
    var after := Cycle(log, snapshot, s, run).log;
    CycleDisciplined(log, snapshot, s, run);
    CommitsOfCycle(log, snapshot, s, run);
    CycleWrites(after, |log|, snapshot, s);
    DisciplinedKeepsForeign(after, |log|, WrittenBy(after, snapshot, s));
  }

  // In particular an image another writer rolls out during the cycle stays when none is configured.
  lemma ForeignImageKept(log: seq<Commit>, snapshot: StatefulSet, s: Settings, run: Run)
    requires log != [] && s.image == ""
    ensures var after := Cycle(log, snapshot, s, run).log;
            var found, left := after[LastForeign(after, |log|)].spec.containers, Latest(after).containers;
            |left| == |found| && forall j :: 0 <= j < |left| ==> left[j].image == found[j].image
  {
    NoForeignChangeLost(log, snapshot, s, run);
    var after := Cycle(log, snapshot, s, run).log;
    SameImages(after[LastForeign(after, |log|)].spec, Latest(after), WrittenBy(after, snapshot, s));
  }

  lemma SameImages(a: StatefulSet, b: StatefulSet, w: Written)
    requires !w.image && Untouched(a, w) == Untouched(b, w)
    ensures |a.containers| == |b.containers|
    ensures forall j :: 0 <= j < |a.containers| ==> a.containers[j].image == b.containers[j].image
  {
    var left, right := Untouched(a, w).containers, Untouched(b, w).containers;
    forall j | 0 <= j < |left|
      ensures a.containers[j].image == b.containers[j].image
    {
      assert left[j].image == a.containers[j].image && right[j].image == b.containers[j].image;
    }
  }

  //// How often the nuker commits

  // From `start` on the log holds commits of others and perhaps one last commit by `edit`, surely
  // when the update was accepted and surely not after a conflict.
  ghost predicate OneOwnCommit(start: nat, r: (seq<Commit>, Reply), edit: Edit) {
    && start <= |r.0|
    && (forall i :: start <= i < |r.0| - 1 ==> r.0[i].author.None?)
    && (|r.0| > start ==> r.0[|r.0| - 1].author == None || r.0[|r.0| - 1].author == Some(edit))
    && (r.1 == Accepted ==> |r.0| > start && r.0[|r.0| - 1].author == Some(edit))
    && (r.1 == Conflict ==> forall i :: start <= i < |r.0| ==> r.0[i].author.None?)
  }

  lemma TryOnceAuthors(log: seq<Commit>, edit: Edit, a: Attempt)
    requires log != []
    ensures OneOwnCommit(|log|, TryOnce(log, edit, a), edit)
  {
  }

  lemma OwnCommitsJoin(start: nat, first: seq<Commit>, r: (seq<Commit>, Reply), edit: Edit)
    requires first <= r.0
    requires OneOwnCommit(start, (first, Conflict), edit) && OneOwnCommit(|first|, r, edit)
    ensures OneOwnCommit(start, r, edit)
  {
  }

  lemma {:induction false} RetryAuthors(log: seq<Commit>, edit: Edit, attempts: seq<Attempt>)
    requires log != []
    ensures OneOwnCommit(|log|, Retry(log, edit, attempts), edit)
    decreases |attempts|
  {
    if attempts != [] {
      var first := TryOnce(log, edit, attempts[0]);
      TryOnceAuthors(log, edit, attempts[0]);
      if first.1 == Conflict {
        var r := Retry(first.0, edit, attempts[1..]);
        RetryAuthors(first.0, edit, attempts[1..]);
        OwnCommitsJoin(|log|, first.0, r, edit);
      }
    }
  }

  // The nuker's commits in a cycle: a take-down, a rollback, or a take-down and later a rollback.
  ghost predicate DownThenUp(start: nat, after: seq<Commit>, down: Edit, up: Edit) {
    && start <= |after|
    && (forall i :: start <= i < |after| && after[i].author.Some? ==>
          after[i].author.value == down || after[i].author.value == up)
    && (forall i, j :: start <= i < j < |after| && after[i].author.Some? && after[j].author.Some? ==>
          after[i].author.value == down && after[j].author.value == up)
  }

  // From `start` on at most one commit of the nuker, by `down`, and one if `taken`.
  ghost predicate AtMostOneDown(start: nat, log: seq<Commit>, down: Edit, taken: bool) {
    && start <= |log|
    && (forall i :: start <= i < |log| && log[i].author.Some? ==> log[i].author.value == down)
    && (forall i, j :: start <= i < j < |log| ==> log[i].author.None? || log[j].author.None?)
    && (taken ==> Signed(start, log, down))
  }

  ghost predicate Signed(start: nat, log: seq<Commit>, edit: Edit) {
    exists i :: start <= i < |log| && log[i].author == Some(edit)
  }

  lemma CommitsBeforeRollback(log: seq<Commit>, s: Settings, run: Run)
    requires log != []
    ensures var r := BeforeRollback(log, s, run);
            AtMostOneDown(|log|, r.0, NukeEdit(s), r.1)
  {
    var nuke := Retry(log, NukeEdit(s), run.nuke);
    RetryAuthors(log, NukeEdit(s), run.nuke);
    FollowedByOthers(|log|, nuke, BeforeRollback(log, s, run).0, NukeEdit(s));
  }

  lemma FollowedByOthers(start: nat, nuke: (seq<Commit>, Reply), middle: seq<Commit>, down: Edit)
    requires OneOwnCommit(start, nuke, down)
    requires nuke.0 <= middle && forall i :: |nuke.0| <= i < |middle| ==> middle[i].author.None?
    ensures AtMostOneDown(start, middle, down, nuke.1 == Accepted)
  {
  }

  lemma PhasesCompose(start: nat, middle: seq<Commit>, taken: bool, rollback: (seq<Commit>, Reply), down: Edit,
                      up: Edit)
    requires AtMostOneDown(start, middle, down, taken)
    requires middle <= rollback.0 && OneOwnCommit(|middle|, rollback, up)
    ensures DownThenUp(start, rollback.0, down, up)
    ensures taken ==> Signed(start, rollback.0, down)
  {
  }

  // A cycle commits at most one take-down and then at most one rollback; a reported success means
  // the take-down is there, an accepted rollback that it is the newest commit.
  lemma CommitsOfCycle(log: seq<Commit>, snapshot: StatefulSet, s: Settings, run: Run)
    requires log != []
    ensures var r := Cycle(log, snapshot, s, run);
            && DownThenUp(|log|, r.log, NukeEdit(s), RollbackEdit(snapshot, s))
            && (r.ok ==> Signed(|log|, r.log, NukeEdit(s)))
            && (r.rolledBack ==> |r.log| > |log| && r.log[|r.log| - 1].author == Some(RollbackEdit(snapshot, s)))
  {
    if BeeIndex(snapshot.containers) >= 0 {
      var up := RollbackEdit(snapshot, s);
      var middle := BeforeRollback(log, s, run);
      CommitsBeforeRollback(log, s, run);
      RetryAuthors(middle.0, up, run.rollback);
      PhasesCompose(|log|, middle.0, middle.1, Retry(middle.0, up, run.rollback), NukeEdit(s), up);
    }
  }

  //// What an accepted rollback leaves

  ghost predicate UniqueNames(cs: seq<Container>) {
    forall i, j :: 0 <= i < j < |cs| ==> cs[i].name != cs[j].name
  }

  // The last container of a name gives the probe.
  lemma {:induction false} OriginalProbeFound(original: seq<Container>, i: nat)
    requires i < |original| && forall j :: i < j < |original| ==> original[j].name != original[i].name
    ensures OriginalProbe(original, original[i].name) == Some(original[i].probe)
    decreases |original|
  {
    if i < |original| - 1 {
      OriginalProbeFound(original[..|original| - 1], i);
    }
  }

  lemma {:induction false} OriginalProbeAbsent(original: seq<Container>, name: string)
    requires forall i :: 0 <= i < |original| ==> original[i].name != name
    ensures OriginalProbe(original, name).None?
    decreases |original|
  {
    if original != [] {
      OriginalProbeAbsent(original[..|original| - 1], name);
    }
  }

  // The take-down: pods are replaced only when deleted, the Bee container runs the nuke command, no
  // container has a probe, and nothing else is different.
  lemma TakeDownResult(edit: Edit, found: StatefulSet)
    requires edit.TakeDown? && Apply(edit, found).Some?
    ensures var put := Apply(edit, found).value;
            var bee := BeeIndex(found.containers);
            && put.strategy == Strategy("OnDelete", None) && put.replicas == found.replicas && put.rest == found.rest
            && |put.containers| == |found.containers|
            && put.containers[bee] == found.containers[bee].(command := edit.command, probe := None)
            && forall j :: 0 <= j < |put.containers| && j != bee ==>
                 put.containers[j] == found.containers[j].(probe := None)
  {
  }

  // Strategy and replicas are the saved ones, every container the saved object had has its saved
  // probe wherever it now stands, and a container it did not have is left exactly as it was found.
  lemma RestoreResult(edit: Edit, found: StatefulSet)
    requires edit.Restore? && UniqueNames(edit.original.containers)
    requires Apply(edit, found).Some?
    ensures var put := Apply(edit, found).value;
            var bee := BeeIndex(found.containers);
            && put.strategy == edit.original.strategy && put.replicas == edit.original.replicas
            && |put.containers| == |found.containers|
            && put.containers[bee].command == edit.command
            && put.containers[bee].image == (if edit.image != "" then edit.image else found.containers[bee].image)
            && (forall i, j :: 0 <= i < |edit.original.containers| && 0 <= j < |put.containers|
                               && put.containers[j].name == edit.original.containers[i].name ==>
                  put.containers[j].probe == edit.original.containers[i].probe)
            && (forall j :: 0 <= j < |put.containers| && j != bee
                            && (forall i :: 0 <= i < |edit.original.containers| ==>
                                  edit.original.containers[i].name != found.containers[j].name) ==>
                  put.containers[j] == found.containers[j])
  {
    var original := edit.original.containers;
    forall i: nat | i < |original|
      ensures OriginalProbe(original, original[i].name) == Some(original[i].probe)
    {
      OriginalProbeFound(original, i);
    }
    forall name | forall i :: 0 <= i < |original| ==> original[i].name != name
      ensures OriginalProbe(original, name).None?
    {
      OriginalProbeAbsent(original, name);
    }
  }

  // What the newest commit looks like when it is the rollback.
  ghost predicate HoldsSnapshot(found: StatefulSet, put: StatefulSet, snapshot: StatefulSet, s: Settings) {
    && Apply(RollbackEdit(snapshot, s), found) == Some(put)
    && put.strategy == snapshot.strategy && put.replicas == snapshot.replicas
    && (forall i, j :: 0 <= i < |snapshot.containers| && 0 <= j < |put.containers|
                       && put.containers[j].name == snapshot.containers[i].name ==>
          put.containers[j].probe == snapshot.containers[i].probe)
  }

  lemma NewestIsRollback(log: seq<Commit>, start: nat, snapshot: StatefulSet, s: Settings)
    requires start < |log| && UniqueNames(snapshot.containers)
    requires Disciplined(log, start) && log[|log| - 1].author == Some(RollbackEdit(snapshot, s))
    ensures |log| >= 2 && HoldsSnapshot(log[|log| - 2].spec, Latest(log), snapshot, s)
  {
    RestoreResult(RollbackEdit(snapshot, s), log[|log| - 2].spec);
  }

  // After an accepted rollback, whoever else wrote, the object is the one found by the last get
  // with the snapshot's strategy, replicas and probes.
  lemma RolledBack(log: seq<Commit>, snapshot: StatefulSet, s: Settings, run: Run)
    requires log != [] && UniqueNames(snapshot.containers)
    requires Cycle(log, snapshot, s, run).rolledBack
    ensures var after := Cycle(log, snapshot, s, run).log;
            |after| > |log| && HoldsSnapshot(after[|after| - 2].spec, Latest(after), snapshot, s)
  {
    var after := Cycle(log, snapshot, s, run).log;
    CommitsOfCycle(log, snapshot, s, run);
    CycleDisciplined(log, snapshot, s, run);
    NewestIsRollback(after, |log|, snapshot, s);
  }

  // With no other writer the cycle is a round trip: only the Bee command, and the image if one was
  // asked for, differ from the saved object.
  lemma TakeDownThenRestore(snapshot: StatefulSet, s: Settings)
    requires UniqueNames(snapshot.containers) && BeeIndex(snapshot.containers) >= 0
    ensures var down := Apply(NukeEdit(s), snapshot);
            var bee := BeeIndex(snapshot.containers);
            var c := snapshot.containers[bee];
            var expected := c.(command := s.restartArgs, image := if s.image != "" then s.image else c.image);
            && down.Some?
            && Apply(RollbackEdit(snapshot, s), down.value) ==
               Some(snapshot.(containers := snapshot.containers[bee := expected]))
  {
    var cs := snapshot.containers;
    var bee := BeeIndex(cs);
    var down := Apply(NukeEdit(s), snapshot).value;
    SameNamesSameBee(cs, down.containers);
    ContainersRoundTrip(cs, bee, s.nukeArgs, s.restartArgs, s.image);
  }

  lemma ContainersRoundTrip(cs: seq<Container>, bee: nat, nukeArgs: seq<string>, restartArgs: seq<string>,
                            image: string)
    requires UniqueNames(cs) && bee < |cs|
    ensures var expected := cs[bee].(command := restartArgs, image := if image != "" then image else cs[bee].image);
            PutBack(TakenDown(cs, bee, nukeArgs), bee, restartArgs, cs, image) == cs[bee := expected]
  {
    forall i: nat | i < |cs|
      ensures OriginalProbe(cs, cs[i].name) == Some(cs[i].probe)
    {
      OriginalProbeFound(cs, i);
    }
  }

  lemma SameNamesSameBee(a: seq<Container>, b: seq<Container>)
    requires |a| == |b| && forall k :: 0 <= k < |a| ==> a[k].name == b[k].name
    ensures BeeIndex(a) == BeeIndex(b)
  {
  }

  // The container at index j of an object is not the Bee container and not one of the snapshot's.
  ghost predicate Unknown(ss: StatefulSet, j: nat, snapshot: StatefulSet) {
    && j < |ss.containers| && j != BeeIndex(ss.containers)
    && forall i :: 0 <= i < |snapshot.containers| ==> snapshot.containers[i].name != ss.containers[j].name
  }

  // Container j ends with the probe the last foreign commit gave it exactly when that commit is the
  // one the rollback edited, or gave it none.
  ghost predicate ProbeKeptWhenRewritten(after: seq<Commit>, start: nat, j: nat) {
    && 0 < start < |after|
    && var foreign := after[LastForeign(after, start)].spec.containers;
       && j < |foreign| && j < |Latest(after).containers|
       && (Latest(after).containers[j].probe == foreign[j].probe <==>
           LastForeign(after, start) == |after| - 2 || foreign[j].probe.None?)
  }

  // The log of a cycle whose rollback was accepted.
  ghost predicate EndsRolledBack(after: seq<Commit>, start: nat, snapshot: StatefulSet, s: Settings) {
    && 0 < start < |after| && Disciplined(after, start)
    && DownThenUp(start, after, NukeEdit(s), RollbackEdit(snapshot, s)) && after[|after| - 1].author.Some?
    && HoldsSnapshot(after[|after| - 2].spec, Latest(after), snapshot, s)
  }

  lemma CycleEndsRolledBack(log: seq<Commit>, snapshot: StatefulSet, s: Settings, run: Run)
    requires log != [] && UniqueNames(snapshot.containers)
    requires Cycle(log, snapshot, s, run).rolledBack
    ensures EndsRolledBack(Cycle(log, snapshot, s, run).log, |log|, snapshot, s)
  {
    RolledBack(log, snapshot, s, run);
    CycleDisciplined(log, snapshot, s, run);
    CommitsOfCycle(log, snapshot, s, run);
  }

  lemma UnknownProbeFate(after: seq<Commit>, start: nat, snapshot: StatefulSet, s: Settings, j: nat)
    requires UniqueNames(snapshot.containers) && EndsRolledBack(after, start, snapshot, s)
    requires Unknown(Latest(after), j, snapshot)
    ensures ProbeKeptWhenRewritten(after, start, j)
  {
    UnknownContainerLeft(snapshot, s, after[|after| - 2].spec, Latest(after), j);
    if LastForeign(after, start) != |after| - 2 {
      TakenDownBefore(after, start, snapshot, s);
      TakenDownProbe(NukeEdit(s), after[|after| - 3].spec, after[|after| - 2].spec, j);
    }
    FateFromFound(after, start, after[|after| - 2].spec.containers, j);
  }

  lemma FateFromFound(after: seq<Commit>, start: nat, found: seq<Container>, j: nat)
    requires 0 < start < |after| && found == after[|after| - 2].spec.containers
    requires j < |found| && j < |Latest(after).containers| && Latest(after).containers[j] == found[j]
    requires LastForeign(after, start) != |after| - 2 ==>
               found[j].probe.None? && j < |after[LastForeign(after, start)].spec.containers|
    ensures ProbeKeptWhenRewritten(after, start, j)
  {
  }

  lemma TakenDownProbe(edit: Edit, found: StatefulSet, down: StatefulSet, j: nat)
    requires edit.TakeDown? && Apply(edit, found) == Some(down)
    ensures |down.containers| == |found.containers|
    ensures j < |down.containers| ==> down.containers[j].probe.None?
  {
    TakeDownResult(edit, found);
  }

  // If the rollback did not find the last commit of another writer, it found the take-down of it.
  lemma TakenDownBefore(after: seq<Commit>, start: nat, snapshot: StatefulSet, s: Settings)
    requires EndsRolledBack(after, start, snapshot, s) && LastForeign(after, start) != |after| - 2
    ensures |after| >= 3 && LastForeign(after, start) == |after| - 3
    ensures Apply(NukeEdit(s), after[|after| - 3].spec) == Some(after[|after| - 2].spec)
  {
  }

  // The probe of a container the snapshot does not know survives the cycle exactly when another
  // writer committed it after the take-down, or when it had none.
  lemma UnknownProbeKept(log: seq<Commit>, snapshot: StatefulSet, s: Settings, run: Run, j: nat)
    requires log != [] && UniqueNames(snapshot.containers)
    requires Cycle(log, snapshot, s, run).rolledBack
    requires Unknown(Latest(Cycle(log, snapshot, s, run).log), j, snapshot)
    ensures ProbeKeptWhenRewritten(Cycle(log, snapshot, s, run).log, |log|, j)
  {
    CycleEndsRolledBack(log, snapshot, s, run);
    UnknownProbeFate(Cycle(log, snapshot, s, run).log, |log|, snapshot, s, j);
  }

  // Seen from the run: the rollback finds the take-down as it was committed, because no one writes
  // after it up to the put of the first rollback attempt.
  ghost predicate FindsTakeDown(log: seq<Commit>, s: Settings, run: Run)
    requires log != []
  {
    var middle := BeforeRollback(log, s, run).0;
    && |middle| > |log| && middle[|middle| - 1].author.Some?
    && run.rollback != [] && NoOneWrites(run.rollback[0])
  }

  // The last commit of r is by `edit` and follows a log of `start` commits directly, or else a commit
  // of another writer.
  ghost predicate Follows(start: nat, r: seq<Commit>, edit: Edit, direct: bool) {
    && |r| > start && r[|r| - 1].author == Some(edit)
    && (|r| == start + 1 <==> direct) && (|r| > start + 1 ==> r[|r| - 2].author.None?)
  }

  predicate NoOneWrites(a: Attempt) {
    a.beforeGet == [] && a.beforePut == []
  }

  lemma TryFollows(log: seq<Commit>, edit: Edit, a: Attempt)
    requires log != []
    ensures var r := TryOnce(log, edit, a);
            && (r.1 == Accepted ==> Follows(|log|, r.0, edit, NoOneWrites(a)))
            && (r.1 == Conflict ==> |r.0| > |log| && r.0[|r.0| - 1].author.None? && !NoOneWrites(a))
  {
  }

  // An accepted update follows the log it started with directly exactly when no one wrote during its
  // first attempt.
  lemma {:induction false} AcceptedFollows(log: seq<Commit>, edit: Edit, attempts: seq<Attempt>)
    requires log != [] && Retry(log, edit, attempts).1 == Accepted
    ensures attempts != [] && Follows(|log|, Retry(log, edit, attempts).0, edit, NoOneWrites(attempts[0]))
    decreases |attempts|
  {
    if attempts != [] {
      var first := TryOnce(log, edit, attempts[0]);
      TryFollows(log, edit, attempts[0]);
      if first.1 == Conflict {
        AcceptedFollows(first.0, edit, attempts[1..]);
        FollowsLater(|log|, first.0, Retry(first.0, edit, attempts[1..]).0, edit, NoOneWrites(attempts[1]));
      }
    }
  }

  lemma FollowsLater(start: nat, log: seq<Commit>, r: seq<Commit>, edit: Edit, direct: bool)
    requires start < |log| && log[|log| - 1].author.None? && log <= r && Follows(|log|, r, edit, direct)
    ensures Follows(start, r, edit, false)
  {
  }

  // The last commit of another writer is not the one the rollback edited exactly when the rollback
  // found the take-down.
  lemma RewrittenUnlessTakeDownFound(log: seq<Commit>, snapshot: StatefulSet, s: Settings, run: Run)
    requires log != [] && Cycle(log, snapshot, s, run).rolledBack
    ensures var after := Cycle(log, snapshot, s, run).log;
            |after| > |log| && (LastForeign(after, |log|) == |after| - 2 <==> !FindsTakeDown(log, s, run))
  {
    var middle := BeforeRollback(log, s, run).0;
    var edit := RollbackEdit(snapshot, s);
    AcceptedFollows(middle, edit, run.rollback);
    FoundOwnCommit(middle, Retry(middle, edit, run.rollback).0, |log|, edit, NoOneWrites(run.rollback[0]));
  }

  lemma FoundOwnCommit(middle: seq<Commit>, after: seq<Commit>, start: nat, edit: Edit, direct: bool)
    requires 0 < start <= |middle| && middle <= after && Follows(|middle|, after, edit, direct)
    ensures LastForeign(after, start) == |after| - 2 <==>
            !(|middle| > start && middle[|middle| - 1].author.Some? && direct)
  {
    LastForeignBeforeOwn(after, start);
  }

  lemma LastForeignBeforeOwn(log: seq<Commit>, start: nat)
    requires 0 < start < |log| && log[|log| - 1].author.Some?
    ensures LastForeign(log, start) == |log| - 2 <==> |log| == start + 1 || log[|log| - 2].author.None?
  {
  }

  // So the probe is lost exactly when it was there and the rollback finds the take-down.
  lemma UnknownProbeLost(log: seq<Commit>, snapshot: StatefulSet, s: Settings, run: Run, j: nat)
    requires log != [] && UniqueNames(snapshot.containers)
    requires Cycle(log, snapshot, s, run).rolledBack
    requires Unknown(Latest(Cycle(log, snapshot, s, run).log), j, snapshot)
    ensures var after := Cycle(log, snapshot, s, run).log;
            var foreign := after[LastForeign(after, |log|)].spec.containers;
            && j < |foreign|
            && (Latest(after).containers[j].probe != foreign[j].probe <==>
                FindsTakeDown(log, s, run) && foreign[j].probe.Some?)
  {
    UnknownProbeKept(log, snapshot, s, run, j);
    RewrittenUnlessTakeDownFound(log, snapshot, s, run);
  }

  lemma UnknownContainerLeft(snapshot: StatefulSet, s: Settings, found: StatefulSet, put: StatefulSet, j: nat)
    requires UniqueNames(snapshot.containers) && HoldsSnapshot(found, put, snapshot, s)
    requires Unknown(put, j, snapshot)
    ensures |put.containers| == |found.containers| && put.containers[j] == found.containers[j]
  {
    var edit := RollbackEdit(snapshot, s);
    RestoreResult(edit, found);
    SameNamesSameBee(found.containers, put.containers);
  }

  // So a probe can be lost, in a cycle that reports success and is rolled back: that of a container
  // another writer adds before the take-down.
  lemma AddedSidecarLosesProbe(s: Settings, pods: seq<PodRun>, restarts: seq<PodRestart>)
    requires s.image == "" && |pods| == |restarts| == 1 && AllCompleted(pods)
    ensures var bee := Container(BEE, [], "bee:2", None, "");
            var sidecar := Container("proxy", [], "proxy:1", Some(Probe("/ready", 5)), "");
            var snapshot := StatefulSet(ON_DELETE, Some(1), [bee], "");
            var quiet := Attempt([], false, [], NoFault);
            var adding := quiet.(beforeGet := [snapshot.(containers := [bee, sidecar])]);
            var run := Run([adding, quiet, quiet, quiet, quiet], [], pods,
                           [quiet, quiet, quiet, quiet, quiet], restarts);
            var r := Cycle([Commit(None, snapshot)], snapshot, s, run);
            && r.ok && r.rolledBack
            && Latest(r.log).containers == [bee.(command := s.restartArgs), sidecar.(probe := None)]
  {
    var bee := Container(BEE, [], "bee:2", None, "");
    var sidecar := Container("proxy", [], "proxy:1", Some(Probe("/ready", 5)), "");
    var snapshot := StatefulSet(ON_DELETE, Some(1), [bee], "");
    var added := snapshot.(containers := [bee, sidecar]);
    var quiet := Attempt([], false, [], NoFault);
    var adding := quiet.(beforeGet := [added]);
    var start := [Commit(None, snapshot)];
    var down, up := SidecarTakenDown(s, bee, sidecar, snapshot);
    assert BeeIndex(snapshot.containers) == 0 by {
      assert snapshot.containers[0].name == BEE;
    }
    var seen := start + Others([added]);
    QuietTry(start, NukeEdit(s), adding, down);
    var taken := seen + [Commit(Some(NukeEdit(s)), down)];
    assert taken + Others([]) == taken;
    QuietTry(taken, RollbackEdit(snapshot, s), quiet, up);
  }

  lemma QuietTry(log: seq<Commit>, edit: Edit, a: Attempt, put: StatefulSet)
    requires log != [] && !a.getFails && a.beforePut == [] && a.put.NoFault?
    requires Apply(edit, Latest(log + Others(a.beforeGet))) == Some(put)
    ensures TryOnce(log, edit, a) == (log + Others(a.beforeGet) + [Commit(Some(edit), put)], Accepted)
  {
    var seen := log + Others(a.beforeGet);
    assert seen + Others([]) == seen;
  }

  lemma SidecarTakenDown(s: Settings, bee: Container, sidecar: Container, snapshot: StatefulSet)
    returns (down: StatefulSet, up: StatefulSet)
    requires s.image == "" && bee.name == BEE && bee.probe.None? && sidecar.name != BEE && snapshot.containers == [bee]
    ensures Apply(NukeEdit(s), snapshot.(containers := [bee, sidecar])) == Some(down)
    ensures Apply(RollbackEdit(snapshot, s), down) == Some(up)
    ensures up.containers == [bee.(command := s.restartArgs), sidecar.(probe := None)]
  {
    var added := snapshot.(containers := [bee, sidecar]);
    assert BeeIndex(added.containers) == 0 by {
      assert added.containers[0].name == BEE;
    }
    down := Apply(NukeEdit(s), added).value;
    assert down.containers == [bee.(command := s.nukeArgs), sidecar.(probe := None)];
    assert BeeIndex(down.containers) == 0 by {
      assert down.containers[0].name == BEE;
    }
    OriginalProbeFound([bee], 0);
    OriginalProbeAbsent([bee], sidecar.name);
    up := Apply(RollbackEdit(snapshot, s), down).value;
    assert up.containers == [bee.(command := s.restartArgs), sidecar.(probe := None)];
  }

  //// When the retries succeed

  predicate HasBee(ss: StatefulSet) {
    BeeIndex(ss.containers) >= 0
  }

  // Every specification others commit during the attempt keeps a Bee container.
  ghost predicate KeepsBee(a: Attempt) {
    (forall w :: w in a.beforeGet ==> HasBee(w)) && (forall w :: w in a.beforePut ==> HasBee(w))
  }

  // What an attempt comes to: another writer gets between its get and its put, it goes through, or a
  // call fails; a failing put may have committed all the same.
  predicate Conflicts(a: Attempt) {
    !a.getFails && a.put.NoFault? && a.beforePut != []
  }

  predicate GoesThrough(a: Attempt) {
    !a.getFails && a.put.NoFault? && a.beforePut == []
  }

  predicate Commits(a: Attempt) {
    !a.getFails && !a.put.Refused? && a.beforePut == []
  }

  lemma AttemptOutcome(log: seq<Commit>, edit: Edit, a: Attempt)
    requires log != [] && HasBee(Latest(log)) && KeepsBee(a)
    ensures var r := TryOnce(log, edit, a);
            && r.1 == (if Conflicts(a) then Conflict else if GoesThrough(a) then Accepted else Failed)
            && HasBee(Latest(r.0)) && (Signed(|log|, r.0, edit) <==> Commits(a))
  {
    var seen := log + Others(a.beforeGet);
    var moved := seen + Others(a.beforePut);
    BeeKept(log, a.beforeGet);
    BeeKept(seen, a.beforePut);
    var put := EditedBee(edit, Latest(seen));
    AttemptByCase(log, edit, a, seen, moved, Commit(Some(edit), put));
    AttemptSigned(|log|, log, seen, moved, Commit(Some(edit), put), edit);
  }

  lemma EditedBee(edit: Edit, found: StatefulSet) returns (put: StatefulSet)
    requires HasBee(found)
    ensures Apply(edit, found) == Some(put) && HasBee(put)
  {
    put := Apply(edit, found).value;
    SameNamesSameBee(found.containers, put.containers);
  }

  lemma AttemptByCase(log: seq<Commit>, edit: Edit, a: Attempt, seen: seq<Commit>, moved: seq<Commit>, own: Commit)
    requires log != [] && seen == log + Others(a.beforeGet) && moved == seen + Others(a.beforePut)
    requires own.author == Some(edit) && Apply(edit, Latest(seen)) == Some(own.spec)
    ensures TryOnce(log, edit, a) ==
            (if a.getFails then seen else if Commits(a) then moved + [own] else moved,
             if Conflicts(a) then Conflict else if GoesThrough(a) then Accepted else Failed)
  {
    assert |moved| == |seen| <==> a.beforePut == [];
  }

  lemma AttemptSigned(start: nat, log: seq<Commit>, seen: seq<Commit>, moved: seq<Commit>, own: Commit, edit: Edit)
    requires start == |log| && log <= seen <= moved && own.author == Some(edit)
    requires forall i :: start <= i < |moved| ==> moved[i].author.None?
    ensures !Signed(start, seen, edit) && !Signed(start, moved, edit) && Signed(start, moved + [own], edit)
  {
    assert (moved + [own])[|moved|] == own;
  }

  lemma BeeKept(log: seq<Commit>, writes: seq<StatefulSet>)
    requires log != [] && HasBee(Latest(log))
    requires forall w :: w in writes ==> HasBee(w)
    ensures HasBee(Latest(log + Others(writes)))
  {
  }

  // The attempt that settles an update: the first one without a conflict.
  ghost predicate Settles(attempts: seq<Attempt>, k: int) {
    0 <= k < |attempts| && !Conflicts(attempts[k]) && forall j :: 0 <= j < k ==> Conflicts(attempts[j])
  }

  ghost predicate UpdateGoesThrough(attempts: seq<Attempt>) {
    exists k :: Settles(attempts, k) && GoesThrough(attempts[k])
  }

  ghost predicate UpdateCommits(attempts: seq<Attempt>) {
    exists k :: Settles(attempts, k) && Commits(attempts[k])
  }

  lemma SettlesLater(attempts: seq<Attempt>, k: int)
    requires attempts != [] && Conflicts(attempts[0])
    ensures Settles(attempts, k) <==> Settles(attempts[1..], k - 1)
  {
    if Settles(attempts, k) {
      assert forall j :: 0 <= j < k - 1 ==> attempts[1..][j] == attempts[j + 1];
    }
    if Settles(attempts[1..], k - 1) {
      assert forall j :: 1 <= j < k ==> attempts[j] == attempts[1..][j - 1];
    }
  }

  lemma SettledLater(attempts: seq<Attempt>)
    requires attempts != [] && Conflicts(attempts[0])
    ensures UpdateGoesThrough(attempts) <==> UpdateGoesThrough(attempts[1..])
    ensures UpdateCommits(attempts) <==> UpdateCommits(attempts[1..])
  {
    forall k
      ensures Settles(attempts, k) <==> Settles(attempts[1..], k - 1)
    {
      SettlesLater(attempts, k);
    }
    forall k | Settles(attempts[1..], k)
      ensures Settles(attempts, k + 1)
    {
      SettlesLater(attempts, k + 1);
    }
  }

  lemma SettledNow(attempts: seq<Attempt>)
    requires attempts != [] && !Conflicts(attempts[0])
    ensures UpdateGoesThrough(attempts) <==> GoesThrough(attempts[0])
    ensures UpdateCommits(attempts) <==> Commits(attempts[0])
  {
    assert Settles(attempts, 0);
  }

  // Whatever calls fail, as long as no one removes the Bee container: an update is accepted exactly
  // when the first attempt without a conflict goes through, and is in the log exactly when that
  // attempt commits. Only a conflict in every attempt makes it end with one.
  lemma {:induction false} RetryOutcome(log: seq<Commit>, edit: Edit, attempts: seq<Attempt>)
    requires log != [] && HasBee(Latest(log))
    requires forall k :: 0 <= k < |attempts| ==> KeepsBee(attempts[k])
    ensures var r := Retry(log, edit, attempts);
            && HasBee(Latest(r.0))
            && (r.1 == Accepted <==> UpdateGoesThrough(attempts))
            && (r.1 == Conflict <==> forall k :: 0 <= k < |attempts| ==> Conflicts(attempts[k]))
            && (Signed(|log|, r.0, edit) <==> UpdateCommits(attempts))
    decreases |attempts|
  {
    if attempts != [] {
      var first := TryOnce(log, edit, attempts[0]);
      AttemptOutcome(log, edit, attempts[0]);
      if Conflicts(attempts[0]) {
        RetryOutcome(first.0, edit, attempts[1..]);
        SettledLater(attempts);
        SignedLater(|log|, first.0, Retry(first.0, edit, attempts[1..]).0, edit);
      } else {
        SettledNow(attempts);
      }
    }
  }

  lemma SignedLater(start: nat, log: seq<Commit>, longer: seq<Commit>, edit: Edit)
    requires start <= |log| && log <= longer && !Signed(start, log, edit)
    ensures Signed(start, longer, edit) <==> Signed(|log|, longer, edit)
  {
  }

  ghost predicate SomeQuiet(attempts: seq<Attempt>) {
    exists k :: 0 <= k < |attempts| && attempts[k].beforePut == []
  }

  // So without failing calls it is accepted exactly when some attempt sees no other writer between
  // its get and its put.
  lemma RetryAcceptedWhenQuiet(log: seq<Commit>, edit: Edit, attempts: seq<Attempt>)
    requires log != [] && HasBee(Latest(log))
    requires forall k :: 0 <= k < |attempts| ==>
               KeepsBee(attempts[k]) && !attempts[k].getFails && attempts[k].put.NoFault?
    ensures Retry(log, edit, attempts).1 == if SomeQuiet(attempts) then Accepted else Conflict
  {
    RetryOutcome(log, edit, attempts);
    if UpdateGoesThrough(attempts) {
      var k :| Settles(attempts, k) && GoesThrough(attempts[k]);
      assert attempts[k].beforePut == [];
    } else {
      QuietSettles(attempts);
    }
  }

  lemma {:induction false} QuietSettles(attempts: seq<Attempt>)
    requires forall k :: 0 <= k < |attempts| ==> !attempts[k].getFails && attempts[k].put.NoFault?
    ensures SomeQuiet(attempts) ==> UpdateGoesThrough(attempts)
    ensures !SomeQuiet(attempts) ==> forall k :: 0 <= k < |attempts| ==> Conflicts(attempts[k])
    decreases |attempts|
  {
    if attempts != [] {
      if attempts[0].beforePut == [] {
        SettledNow(attempts);
      } else {
        QuietSettles(attempts[1..]);
        SettledLater(attempts);
        if k :| 0 <= k < |attempts| && attempts[k].beforePut == [] {
          assert attempts[1..][k - 1].beforePut == [];
        }
      }
    }
  }

  // Whatever calls fail, as long as no one removes the Bee container: the cycle reports success
  // exactly when the take-down goes through and each pod was deleted, recreated, ran and completed.
  // The rollback is made whatever became of the take-down and of the pods: it is accepted exactly when
  // it goes through itself. Without a Bee container in the snapshot nothing happens at all.
  lemma OutcomeOfCycle(log: seq<Commit>, snapshot: StatefulSet, s: Settings, run: Run)
    requires log != [] && HasBee(Latest(log))
    requires forall k :: 0 <= k < |run.nuke| ==> KeepsBee(run.nuke[k])
    requires forall k :: 0 <= k < |run.rollback| ==> KeepsBee(run.rollback[k])
    requires forall w :: w in run.during ==> HasBee(w)
    ensures var r := Cycle(log, snapshot, s, run);
            if !HasBee(snapshot) then r == Outcome(log, false, false, false)
            else
              && (r.ok <==> UpdateGoesThrough(run.nuke) && AllCompleted(run.pods))
              && (r.rolledBack <==> UpdateGoesThrough(run.rollback))
              && (r.restarted <==> UpdateGoesThrough(run.rollback) && AllRestarted(run.restarts))
  {
    var nuke := Retry(log, NukeEdit(s), run.nuke);
    RetryOutcome(log, NukeEdit(s), run.nuke);
    BeeKept(nuke.0, run.during);
    RetryOutcome(BeforeRollback(log, s, run).0, RollbackEdit(snapshot, s), run.rollback);
  }

  // The commit at index n is the take-down, and the specifications in `during` follow it.
  ghost predicate FollowedBy(log: seq<Commit>, n: nat, down: Edit, during: seq<StatefulSet>) {
    && n + |during| < |log| && log[n].author == Some(down)
    && forall k :: 0 <= k < |during| ==> log[n + 1 + k] == Commit(None, during[k])
  }

  // What others commit while the pods run the nuke is in the log, in order and after the take-down.
  lemma WritesRecorded(log: seq<Commit>, snapshot: StatefulSet, s: Settings, run: Run)
    requires log != [] && Cycle(log, snapshot, s, run).ok
    ensures exists n: nat :: n >= |log| && FollowedBy(Cycle(log, snapshot, s, run).log, n, NukeEdit(s), run.during)
  {
    var nuke := Retry(log, NukeEdit(s), run.nuke).0;
    RetryAuthors(log, NukeEdit(s), run.nuke);
    RecordedAfter(nuke, Cycle(log, snapshot, s, run).log, NukeEdit(s), run.during);
  }

  lemma RecordedAfter(nuke: seq<Commit>, after: seq<Commit>, down: Edit, during: seq<StatefulSet>)
    requires nuke != [] && nuke[|nuke| - 1].author == Some(down) && nuke + Others(during) <= after
    ensures FollowedBy(after, |nuke| - 1, down, during)
  {
    forall k | 0 <= k < |during|
      ensures after[|nuke| + k] == Commit(None, during[k])
    {
      assert (nuke + Others(during))[|nuke| + k] == Others(during)[k];
    }
    assert (nuke + Others(during))[|nuke| - 1] == nuke[|nuke| - 1];
  }

  // The take-down is in the log exactly when its settling attempt commits, and so is the rollback,
  // also when the program does not learn of it.
  lemma CommittedInCycle(log: seq<Commit>, snapshot: StatefulSet, s: Settings, run: Run)
    requires log != [] && HasBee(Latest(log)) && HasBee(snapshot)
    requires forall k :: 0 <= k < |run.nuke| ==> KeepsBee(run.nuke[k])
    requires forall k :: 0 <= k < |run.rollback| ==> KeepsBee(run.rollback[k])
    requires forall w :: w in run.during ==> HasBee(w)
    ensures var after := Cycle(log, snapshot, s, run).log;
            && (Signed(|log|, after, NukeEdit(s)) <==> UpdateCommits(run.nuke))
            && (Signed(|log|, after, RollbackEdit(snapshot, s)) <==> UpdateCommits(run.rollback))
  {
    var down, up := NukeEdit(s), RollbackEdit(snapshot, s);
    var nuke := Retry(log, down, run.nuke);
    RetryOutcome(log, down, run.nuke);
    BeeKept(nuke.0, run.during);
    var middle := BeforeRollback(log, s, run);
    CommitsBeforeRollback(log, s, run);
    SignedBefore(|log|, nuke.0, middle.0, down);
    var rollback := Retry(middle.0, up, run.rollback);
    RetryOutcome(middle.0, up, run.rollback);
    RetryAuthors(middle.0, up, run.rollback);
    SignedAcross(|log|, middle.0, rollback, down, up);
  }

  lemma SignedBefore(start: nat, log: seq<Commit>, longer: seq<Commit>, edit: Edit)
    requires start <= |log| && log <= longer && forall i :: |log| <= i < |longer| ==> longer[i].author.None?
    ensures Signed(start, longer, edit) <==> Signed(start, log, edit)
  {
    if Signed(start, log, edit) {
      var i :| start <= i < |log| && log[i].author == Some(edit);
      assert longer[i].author == Some(edit);
    }
  }

  lemma SignedAcross(start: nat, middle: seq<Commit>, rollback: (seq<Commit>, Reply), down: Edit, up: Edit)
    requires AtMostOneDown(start, middle, down, false) && down.TakeDown? && up.Restore?
    requires middle <= rollback.0 && OneOwnCommit(|middle|, rollback, up)
    ensures Signed(start, rollback.0, down) <==> Signed(start, middle, down)
    ensures Signed(start, rollback.0, up) <==> Signed(|middle|, rollback.0, up)
  {
    if Signed(start, middle, down) {
      var i :| start <= i < |middle| && middle[i].author == Some(down);
      assert rollback.0[i].author == Some(down);
    }
    assert forall i :: start <= i < |middle| ==> rollback.0[i] == middle[i];
  }

  //// What the commits of a cycle say

  // The Bee container runs `command`.
  predicate RunsBee(ss: StatefulSet, command: seq<string>) {
    HasBee(ss) && ss.containers[BeeIndex(ss.containers)].command == command
  }

  // A specification under which a deleted pod comes back as the nuke, and is ready at once.
  ghost predicate NukesWhenDeleted(ss: StatefulSet, command: seq<string>) {
    && RunsBee(ss, command) && ss.strategy.kind == "OnDelete"
    && forall j :: 0 <= j < |ss.containers| ==> ss.containers[j].probe.None?
  }

  // A reported success means that the nuke was rolled out; an accepted rollback leaves the restart
  // command, and the configured image.
  lemma CommandsOfCycle(log: seq<Commit>, snapshot: StatefulSet, s: Settings, run: Run)
    requires log != []
    ensures var r := Cycle(log, snapshot, s, run);
            && (r.ok ==> exists i :: |log| <= i < |r.log| && NukesWhenDeleted(r.log[i].spec, s.nukeArgs))
            && (r.rolledBack ==> RunsBee(Latest(r.log), s.restartArgs)
                                 && (s.image != "" ==> BeeImage(Latest(r.log)) == Some(s.image)))
  {
    var r := Cycle(log, snapshot, s, run);
    CommitsOfCycle(log, snapshot, s, run);
    CycleDisciplined(log, snapshot, s, run);
    if r.ok {
      var i :| |log| <= i < |r.log| && r.log[i].author == Some(NukeEdit(s));
      TakenDownSpec(s, r.log[i - 1].spec, r.log[i].spec);
    }
    if r.rolledBack {
      RolledBackSpec(snapshot, s, r.log[|r.log| - 2].spec, Latest(r.log));
    }
  }

  function BeeImage(ss: StatefulSet): Option<string> {
    if HasBee(ss) then Some(ss.containers[BeeIndex(ss.containers)].image) else None
  }

  lemma TakenDownSpec(s: Settings, found: StatefulSet, put: StatefulSet)
    requires Apply(NukeEdit(s), found) == Some(put)
    ensures NukesWhenDeleted(put, s.nukeArgs)
  {
    TakeDownResult(NukeEdit(s), found);
    SameNamesSameBee(found.containers, put.containers);
  }

  lemma RolledBackSpec(snapshot: StatefulSet, s: Settings, found: StatefulSet, put: StatefulSet)
    requires Apply(RollbackEdit(snapshot, s), found) == Some(put)
    ensures RunsBee(put, s.restartArgs) && (s.image != "" ==> BeeImage(put) == Some(s.image))
  {
    var bee := BeeIndex(found.containers);
    SameNamesSameBee(found.containers, put.containers);
    PutBackContainer(found.containers, bee, s.restartArgs, snapshot.containers, s.image, bee);
  }
}
