/**
 The watch that follows one pod through deletion, recreation, start and completion
 (pkg/k8s/pod/client.go). The transition function works on one event at a time; the results say,
 in terms of the whole event sequence, when the watch succeeds, fails and times out.
 */
module PodLifecycle {
  import opened Wrappers

  datatype State = WaitingForDeletion | WaitingForCreation | WaitingForRunning | WaitingForCompletion | Completed {
    function Rank(): nat {
      match this
      case WaitingForDeletion => 0
      case WaitingForCreation => 1
      case WaitingForRunning => 2
      case WaitingForCompletion => 3
      case Completed => 4
    }
  }

  datatype Termination = Termination(reason: string, exitCode: int)

  datatype Status = Status(name: string, running: bool, terminated: Option<Termination>)

  datatype Kind = Added | Modified | Deleted | Bookmark | Error

  // A watch event; its object need not be a pod.
  datatype Event = NotAPod | PodEvent(kind: Kind, specContainers: seq<string>, statuses: seq<Status>)

  datatype Failure = ContainerFailed(exitCode: int)

  datatype Outcome = Success | Failed(failure: Failure) | TimedOut(state: State)

  // The container to follow: the requested one, or the pod's first when none was requested.
  function Target(e: Event, container: string): string
    requires e.PodEvent?
  {
    if container == "" && |e.specContainers| > 0 then e.specContainers[0] else container
  }

  //// The transition function

  predicate AnyRunning(statuses: seq<Status>, name: string) {
    exists i :: 0 <= i < |statuses| && statuses[i].name == name && statuses[i].running
  }

  // A status that ends the watch for the named container.
  predicate Decisive(s: Status, name: string) {
    s.name == name && s.terminated.Some? && s.terminated.value.reason in {"Error", "Completed"}
  }

  // The first such status of an event.
  function Verdict(statuses: seq<Status>, name: string): Option<Termination> {
    if statuses == [] then None
    else if Decisive(statuses[0], name) then statuses[0].terminated
    else Verdict(statuses[1..], name)
  }

  function Process(e: Event, s: State, container: string): Result<State, Failure> {
    if e.NotAPod? then Ok(s)
    else
      var name := Target(e, container);
      match s
      case WaitingForDeletion => Ok(if e.kind == Deleted then WaitingForCreation else s)
      case WaitingForCreation => Ok(if e.kind == Added then WaitingForRunning else s)
      case WaitingForRunning =>
        Ok(if e.kind == Modified && AnyRunning(e.statuses, name) then WaitingForCompletion else s)
      case WaitingForCompletion =>
        var v := if e.kind == Modified then Verdict(e.statuses, name) else None;
        if v.None? then Ok(s)
        else if v.value.reason == "Error" then Err(ContainerFailed(v.value.exitCode))
        else Ok(Completed)
      case Completed => Ok(s)
  }

  method ProcessEventInState(e: Event, s: State, container: string) returns (r: Result<State, Failure>)
    ensures r == Process(e, s, container)
  {
    if e.NotAPod? {
      return Ok(s);
    }
    var name := Target(e, container);
    match s {
      case WaitingForDeletion =>
        if e.kind == Deleted {
          return Ok(WaitingForCreation);
        }
      case WaitingForCreation =>
        if e.kind == Added {
          return Ok(WaitingForRunning);
        }
      case WaitingForRunning =>
        if e.kind == Modified {
          for i := 0 to |e.statuses|
            invariant forall k :: 0 <= k < i ==> !(e.statuses[k].name == name && e.statuses[k].running)
          {
            if e.statuses[i].name == name && e.statuses[i].running {
              return Ok(WaitingForCompletion);
            }
          }
        }
      case WaitingForCompletion =>
        if e.kind == Modified {
          for i := 0 to |e.statuses|
            invariant Verdict(e.statuses, name) == Verdict(e.statuses[i..], name)
          {
            assert e.statuses[i..][1..] == e.statuses[i + 1..];
            if e.statuses[i].name == name && e.statuses[i].terminated.Some? {
              var t := e.statuses[i].terminated.value;
              if t.reason == "Error" {
                return Err(ContainerFailed(t.exitCode));
              }
              if t.reason == "Completed" {
                return Ok(Completed);
              }
            }
          }
        }
      case Completed =>
    }
    return Ok(s);
  }

  //// What an event means for the pod

  predicate IsDeleted(e: Event) {
    e.PodEvent? && e.kind == Deleted
  }

  predicate IsAdded(e: Event) {
    e.PodEvent? && e.kind == Added
  }

  predicate IsRunning(e: Event, container: string) {
    e.PodEvent? && e.kind == Modified && AnyRunning(e.statuses, Target(e, container))
  }

  function Ending(e: Event, container: string): Option<Termination> {
    if e.PodEvent? && e.kind == Modified then Verdict(e.statuses, Target(e, container)) else None
  }

  predicate IsCompleted(e: Event, container: string) {
    Ending(e, container).Some? && Ending(e, container).value.reason == "Completed"
  }

  predicate IsFailed(e: Event, container: string) {
    Ending(e, container).Some? && Ending(e, container).value.reason == "Error"
  }

  // The status at index i is the first decisive one of the followed container.
  ghost predicate DecidesAt(e: Event, container: string, i: int) {
    && e.PodEvent? && e.kind == Modified && 0 <= i < |e.statuses|
    && Decisive(e.statuses[i], Target(e, container))
    && forall k :: 0 <= k < i ==> !Decisive(e.statuses[k], Target(e, container))
  }

  lemma {:induction false} VerdictIsFirstDecisive(statuses: seq<Status>, name: string, i: nat)
    requires i <= |statuses|
    requires forall k :: 0 <= k < i ==> !Decisive(statuses[k], name)
    ensures i == |statuses| ==> Verdict(statuses, name).None?
    ensures i < |statuses| && Decisive(statuses[i], name) ==> Verdict(statuses, name) == statuses[i].terminated
  {
    if i > 0 {
      VerdictIsFirstDecisive(statuses[1..], name, i - 1);
    }
  }

  lemma FirstDecisive(statuses: seq<Status>, name: string) returns (i: nat)
    ensures i <= |statuses| && forall k :: 0 <= k < i ==> !Decisive(statuses[k], name)
    ensures i < |statuses| ==> Decisive(statuses[i], name)
  {
    i := 0;
    while i < |statuses| && !Decisive(statuses[i], name)
      invariant i <= |statuses| && forall k :: 0 <= k < i ==> !Decisive(statuses[k], name)
    {
      i := i + 1;
    }
  }

  // An event ends the watch by the first status of the followed container that says "Completed" or
  // "Error", and not at all without one.
  lemma EndingMeansFirstDecisive(e: Event, container: string)
    ensures forall i :: DecidesAt(e, container, i) ==> Ending(e, container) == e.statuses[i].terminated
    ensures IsCompleted(e, container) || IsFailed(e, container) <==> exists i :: DecidesAt(e, container, i)
    ensures Ending(e, container).None? <==> forall i :: !DecidesAt(e, container, i)
  {
    if e.PodEvent? && e.kind == Modified {
      var name := Target(e, container);
      var i := FirstDecisive(e.statuses, name);
      VerdictIsFirstDecisive(e.statuses, name, i);
      if i < |e.statuses| {
        assert DecidesAt(e, container, i);
      }
    }
  }

  //// What a sequence of events means for the watch

  ghost predicate SawDeletion(events: seq<Event>) {
    exists d :: 0 <= d < |events| && IsDeleted(events[d])
  }

  ghost predicate SawCreation(events: seq<Event>) {
    exists d, a :: 0 <= d < a < |events| && IsDeleted(events[d]) && IsAdded(events[a])
  }

  // The event at r shows the recreated container running.
  ghost predicate Starts(events: seq<Event>, container: string, r: int) {
    0 <= r < |events| && IsRunning(events[r], container) && SawCreation(events[..r])
  }

  ghost predicate StartsFirst(events: seq<Event>, container: string, r: int) {
    Starts(events, container, r) && forall q :: 0 <= q < r ==> !Starts(events, container, q)
  }

  ghost predicate Started(events: seq<Event>, container: string) {
    exists r :: Starts(events, container, r)
  }

  // Deleted, Added, running and Completed, in this order, with no failure in between.
  ghost predicate CompletesAt(events: seq<Event>, container: string, r: int, f: int) {
    && StartsFirst(events, container, r) && r < f < |events|
    && IsCompleted(events[f], container)
    && forall k :: r < k < f ==> !IsFailed(events[k], container)
  }

  ghost predicate Completes(events: seq<Event>, container: string) {
    exists r, f :: CompletesAt(events, container, r, f)
  }

  // The first decisive event after the start is a failure.
  ghost predicate FailsAt(events: seq<Event>, container: string, failure: Failure, r: int, f: int) {
    && StartsFirst(events, container, r) && r < f < |events|
    && IsFailed(events[f], container) && failure == ContainerFailed(Ending(events[f], container).value.exitCode)
    && forall k :: r < k < f ==> Ending(events[k], container).None?
  }

  ghost predicate Fails(events: seq<Event>, container: string, failure: Failure) {
    exists r, f :: FailsAt(events, container, failure, r, f)
  }

  // The container started at r and nothing decisive has happened since.
  ghost predicate WaitsSince(events: seq<Event>, container: string, r: int) {
    StartsFirst(events, container, r) && forall k :: r < k < |events| ==> Ending(events[k], container).None?
  }

  // The state in which a watch that has neither succeeded nor failed waits.
  ghost predicate Reached(events: seq<Event>, container: string, s: State) {
    match s
    case WaitingForDeletion => !SawDeletion(events)
    case WaitingForCreation => SawDeletion(events) && !SawCreation(events)
    case WaitingForRunning => SawCreation(events) && !Started(events, container)
    case WaitingForCompletion => exists r :: WaitsSince(events, container, r)
    case Completed => false
  }

  //// The loop

  method WaitForPodRecreationAndCompletion(events: seq<Event>, container: string) returns (o: Outcome)
    // `events` are those that arrive before the deadline
    ensures o == Success <==> Completes(events, container)
    ensures o.Failed? <==> exists f :: Fails(events, container, f)
    ensures o.Failed? ==> Fails(events, container, o.failure)
    ensures o.TimedOut? ==> Reached(events, container, o.state)
  {
    var current := WaitingForDeletion;
    assert events[..0] == [];
    for k := 0 to |events|
      invariant Reached(events[..k], container, current)
    {
      assert events[..k + 1] == events[..k] + [events[k]];
      assert events[..k + 1] <= events;
      StepReached(events[..k], events[k], container, current);
      var next := ProcessEventInState(events[k], current, container);
      if next.Err? {
        FailsStable(events[..k + 1], events, container, next.error);
        NeverBoth(events, container, next.error);
        return Failed(next.error);
      }
      if next.value != current {
        current := next.value;
      }
      if current == Completed {
        CompletesStable(events[..k + 1], events, container);
        forall f {
          NeverBoth(events, container, f);
        }
        return Success;
      }
    }
    assert events[..|events|] == events;
    ReachedExcludes(events, container, current);
    return TimedOut(current);
  }

  //// Each event refines what the events so far mean

  lemma StartsStable(before: seq<Event>, after: seq<Event>, container: string, r: int)
    requires before <= after && r < |before|
    ensures Starts(before, container, r) <==> Starts(after, container, r)
    ensures StartsFirst(before, container, r) ==> StartsFirst(after, container, r)
  {
    forall q | 0 <= q < |before|
      ensures Starts(before, container, q) <==> Starts(after, container, q)
    {
      assert before[..q] == after[..q];
    }
  }

  lemma SawStable(before: seq<Event>, e: Event)
    ensures SawDeletion(before + [e]) <==> SawDeletion(before) || IsDeleted(e)
    ensures SawCreation(before + [e]) <==> SawCreation(before) || (SawDeletion(before) && IsAdded(e))
  {
    var after := before + [e];
    assert forall k :: 0 <= k < |before| ==> after[k] == before[k];
    if SawDeletion(before) {
      var d :| 0 <= d < |before| && IsDeleted(before[d]);
      assert IsDeleted(after[d]);
    }
    if SawCreation(before) {
      var d, a :| 0 <= d < a < |before| && IsDeleted(before[d]) && IsAdded(before[a]);
      assert IsDeleted(after[d]) && IsAdded(after[a]);
    }
    if SawDeletion(before) && IsAdded(e) {
      var d :| 0 <= d < |before| && IsDeleted(before[d]);
      assert IsDeleted(after[d]) && IsAdded(after[|before|]);
    }
    if IsDeleted(e) {
      assert IsDeleted(after[|before|]);
    }
  }

  lemma StartedStable(before: seq<Event>, e: Event, container: string)
    ensures Started(before + [e], container) <==>
            Started(before, container) || (SawCreation(before) && IsRunning(e, container))
    ensures !Started(before, container) && SawCreation(before) && IsRunning(e, container) ==>
              StartsFirst(before + [e], container, |before|)
  {
    var after := before + [e];
    assert after[..|before|] == before;
    forall r | 0 <= r < |before|
      ensures Starts(before, container, r) <==> Starts(after, container, r)
    {
      StartsStable(before, after, container, r);
    }
    assert Starts(after, container, |before|) <==> SawCreation(before) && IsRunning(e, container);
  }

  lemma StepReached(before: seq<Event>, e: Event, container: string, s: State)
    requires Reached(before, container, s)
    ensures match Process(e, s, container)
            case Err(f) => Fails(before + [e], container, f)
            case Ok(Completed) => Completes(before + [e], container)
            case Ok(t) => Reached(before + [e], container, t)
  {
    SawStable(before, e);
    match s {
      case WaitingForDeletion =>
      case WaitingForCreation => NoStartYet(before + [e], container);
      case WaitingForRunning => StepRunning(before, e, container);
      case WaitingForCompletion => StepCompletion(before, e, container);
      case Completed =>
    }
  }

  // A container cannot have started before its pod was recreated; in particular not at the
  // event that recreates it.
  lemma NoStartYet(events: seq<Event>, container: string)
    requires events != [] && !SawCreation(events[..|events| - 1])
    ensures !Started(events, container)
  {
  }

  lemma StepRunning(before: seq<Event>, e: Event, container: string)
    requires Reached(before, container, WaitingForRunning)
    ensures Process(e, WaitingForRunning, container).Ok?
    ensures Reached(before + [e], container, Process(e, WaitingForRunning, container).value)
  {
    SawStable(before, e);
    StartedStable(before, e, container);
    if IsRunning(e, container) {
      assert WaitsSince(before + [e], container, |before|);
    }
  }

  lemma StepCompletion(before: seq<Event>, e: Event, container: string)
    requires Reached(before, container, WaitingForCompletion)
    ensures match Process(e, WaitingForCompletion, container)
            case Err(f) => Fails(before + [e], container, f)
            case Ok(Completed) => Completes(before + [e], container)
            case Ok(t) => t == WaitingForCompletion && Reached(before + [e], container, t)
  {
    var r :| WaitsSince(before, container, r);
    LastWait(e, container);
    if IsCompleted(e, container) {
      CompletesNow(before, e, container, r);
    } else if IsFailed(e, container) {
      FailsNow(before, e, container, r);
    } else {
      StillWaits(before, e, container, r);
    }
  }

  lemma LastWait(e: Event, container: string)
    ensures var ending := Ending(e, container);
            && (IsCompleted(e, container) || IsFailed(e, container) || ending.None?)
            && Process(e, WaitingForCompletion, container) ==
               if ending.None? then Ok(WaitingForCompletion)
               else if IsFailed(e, container) then Err(ContainerFailed(ending.value.exitCode))
               else Ok(Completed)
  {
    EndingMeansFirstDecisive(e, container);
  }

  lemma CompletesNow(before: seq<Event>, e: Event, container: string, r: int)
    requires WaitsSince(before, container, r) && IsCompleted(e, container)
    ensures Completes(before + [e], container)
  {
    StartsStable(before, before + [e], container, r);
    assert CompletesAt(before + [e], container, r, |before|);
  }

  lemma FailsNow(before: seq<Event>, e: Event, container: string, r: int)
    requires WaitsSince(before, container, r) && IsFailed(e, container)
    ensures Fails(before + [e], container, ContainerFailed(Ending(e, container).value.exitCode))
  {
    StartsStable(before, before + [e], container, r);
    assert FailsAt(before + [e], container, ContainerFailed(Ending(e, container).value.exitCode), r, |before|);
  }

  lemma StillWaits(before: seq<Event>, e: Event, container: string, r: int)
    requires WaitsSince(before, container, r) && Ending(e, container).None?
    ensures Reached(before + [e], container, WaitingForCompletion)
  {
    StartsStable(before, before + [e], container, r);
    assert WaitsSince(before + [e], container, r);
  }

  //// Verdicts are final and exclude each other

  lemma CompletesStable(before: seq<Event>, after: seq<Event>, container: string)
    requires before <= after && Completes(before, container)
    ensures Completes(after, container)
  {
    var r, f :| CompletesAt(before, container, r, f);
    StartsStable(before, after, container, r);
    assert forall k :: 0 <= k < |before| ==> after[k] == before[k];
    assert CompletesAt(after, container, r, f);
  }

  lemma FailsStable(before: seq<Event>, after: seq<Event>, container: string, failure: Failure)
    requires before <= after && Fails(before, container, failure)
    ensures Fails(after, container, failure)
  {
    var r, f :| FailsAt(before, container, failure, r, f);
    StartsStable(before, after, container, r);
    assert forall k :: 0 <= k < |before| ==> after[k] == before[k];
    assert FailsAt(after, container, failure, r, f);
  }

  lemma NeverBoth(events: seq<Event>, container: string, failure: Failure)
    ensures !(Completes(events, container) && Fails(events, container, failure))
  {
  }

  lemma ReachedExcludes(events: seq<Event>, container: string, s: State)
    requires Reached(events, container, s)
    ensures !Completes(events, container)
    ensures forall f :: !Fails(events, container, f)
  {
  }

  //// Laws of the transition function

  // The state never goes back and moves at most one step per event.
  lemma AtMostOneStep(e: Event, s: State, container: string)
    ensures Process(e, s, container).Ok? ==> s.Rank() <= Process(e, s, container).value.Rank() <= s.Rank() + 1
    ensures Process(e, s, container).Err? ==> s == WaitingForCompletion
  {
  }

  function Own(statuses: seq<Status>, name: string): seq<Status> {
    if statuses == [] then []
    else (if statuses[0].name == name then [statuses[0]] else []) + Own(statuses[1..], name)
  }

  lemma {:induction false} SidecarsInvisible(statuses: seq<Status>, name: string)
    ensures AnyRunning(statuses, name) <==> AnyRunning(Own(statuses, name), name)
    ensures Verdict(statuses, name) == Verdict(Own(statuses, name), name)
  {
    if statuses != [] {
      var rest := statuses[1..];
      SidecarsInvisible(rest, name);
      var own := Own(statuses, name);
      if statuses[0].name == name {
        assert own[1..] == Own(rest, name);
      } else {
        assert own == Own(rest, name);
      }
      AnyRunningCons(statuses, name);
      if own != [] {
        AnyRunningCons(own, name);
      }
    }
  }

  lemma AnyRunningCons(statuses: seq<Status>, name: string)
    requires statuses != []
    ensures AnyRunning(statuses, name) <==>
            (statuses[0].name == name && statuses[0].running) || AnyRunning(statuses[1..], name)
  {
  }

  // Statuses of other containers change neither the state nor the failure.
  lemma SidecarsIgnored(e: Event, other: Event, s: State, container: string)
    requires e.PodEvent? && other.PodEvent?
    requires e.kind == other.kind && e.specContainers == other.specContainers
    requires Own(e.statuses, Target(e, container)) == Own(other.statuses, Target(e, container))
    ensures Process(e, s, container) == Process(other, s, container)
  {
    SidecarsInvisible(e.statuses, Target(e, container));
    SidecarsInvisible(other.statuses, Target(e, container));
  }

  //// Which container is followed

  // A requested container is followed by its name, whatever containers the pod lists; without a
  // request the pod's first container is.
  lemma FollowedContainer(e: Event, s: State, container: string, other: seq<string>)
    requires e.PodEvent?
    ensures container != "" ==> Process(e, s, container) == Process(e.(specContainers := other), s, container)
    ensures |e.specContainers| > 0 ==> Process(e, s, "") == Process(e, s, e.specContainers[0])
  {
  }

  predicate SaysEnded(s: Status, name: string) {
    && s.name == name && s.terminated.Some?
    && (s.terminated.value.reason == "Error" || s.terminated.value.reason == "Completed")
  }

  // Status i is the first one of the named container that says how it ended.
  ghost predicate EndsAt(e: Event, name: string, i: int, reason: string) {
    && e.PodEvent? && e.kind == Modified && 0 <= i < |e.statuses|
    && SaysEnded(e.statuses[i], name) && e.statuses[i].terminated.value.reason == reason
    && forall k :: 0 <= k < i ==> !SaysEnded(e.statuses[k], name)
  }

  // For a requested container the events mean what its own statuses say.
  lemma MeaningByName(e: Event, container: string)
    requires container != ""
    ensures IsRunning(e, container) <==>
            e.PodEvent? && e.kind == Modified
            && exists i :: 0 <= i < |e.statuses| && e.statuses[i].name == container && e.statuses[i].running
    ensures IsCompleted(e, container) <==> exists i :: EndsAt(e, container, i, "Completed")
    ensures IsFailed(e, container) <==> exists i :: EndsAt(e, container, i, "Error")
    ensures forall i :: EndsAt(e, container, i, "Error") ==>
              Ending(e, container).value.exitCode == e.statuses[i].terminated.value.exitCode
  {
    EndingMeansFirstDecisive(e, container);
    forall i, reason | reason == "Completed" || reason == "Error"
      ensures EndsAt(e, container, i, reason) <==>
              DecidesAt(e, container, i) && e.statuses[i].terminated.value.reason == reason
    {
    }
    if i :| DecidesAt(e, container, i) {
      var reason := e.statuses[i].terminated.value.reason;
      assert EndsAt(e, container, i, reason);
    }
  }

  //// Waiting for a pod to run again

  datatype Poll = GetFails | InPhase(phase: string)

  predicate IsUp(p: Poll) {
    p == InPhase("Running")
  }

  // An answer that ends the polling with an error.
  predicate IsBad(p: Poll) {
    p == GetFails || p == InPhase("Failed") || p == InPhase("Unknown")
  }

  ghost predicate ComesUpAt(polls: seq<Poll>, i: int) {
    0 <= i < |polls| && IsUp(polls[i]) && forall k :: 0 <= k < i ==> !IsBad(polls[k])
  }

  // The pod is seen running before anything bad is seen.
  ghost predicate ComesUp(polls: seq<Poll>) {
    exists i :: ComesUpAt(polls, i)
  }

  method WaitForRunning(polls: seq<Poll>) returns (ok: bool)
    // `polls` are the answers before the deadline
    ensures ok <==> ComesUp(polls)
  {
    for i := 0 to |polls|
      invariant forall k :: 0 <= k < i ==> !IsUp(polls[k]) && !IsBad(polls[k])
    {
      if polls[i] == InPhase("Running") {
        assert ComesUpAt(polls, i);
        return true;
      }
      if polls[i] == GetFails || polls[i] == InPhase("Failed") || polls[i] == InPhase("Unknown") {
        assert IsBad(polls[i]);
        return false;
      }
    }
    return false;
  }
}
