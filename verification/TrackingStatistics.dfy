/** What the statistics of the tracking memory manager tell about a run. */
module TrackingStatistics {
  import opened TrackingMemory

  function Next(l: Limits, s: State, e: Event): State
    requires Enabled(s, e.thread, e.action)
  {
    Step(l, s, e.thread, e.action)
  }

  /** A thread asks for memory, and gets its reservation. */
  predicate Admitted(l: Limits, s: State, e: Event) {
    e.action.StartAlloc? && Reserve(l, s.numbers, e.action.size).1
  }

  /** An allocation fails: for a limit, or in the inner allocator. */
  predicate Fails(l: Limits, s: State, e: Event) {
    e.action.GiveUp? || (e.action.StartAlloc? && !Reserve(l, s.numbers, e.action.size).1)
  }

  /** The most bytes that were in use in any state of a run. */
  function Peak(l: Limits, s: State, events: seq<Event>): nat
    requires Run(l, s, events).Reached?
    decreases |events|
  {
    if events == [] then s.numbers.inUse
    else
      var rest := Peak(l, Next(l, s, events[0]), events[1..]);
      if rest > s.numbers.inUse then rest else s.numbers.inUse
  }

  function AdmittedCount(l: Limits, s: State, events: seq<Event>): nat
    requires Run(l, s, events).Reached?
    decreases |events|
  {
    if events == [] then 0 else (if Admitted(l, s, events[0]) then 1 else 0) + AdmittedCount(l, Next(l, s, events[0]), events[1..])
  }

  function AdmittedBytes(l: Limits, s: State, events: seq<Event>): nat
    requires Run(l, s, events).Reached?
    decreases |events|
  {
    if events == [] then 0
    else (if Admitted(l, s, events[0]) then events[0].action.size else 0) + AdmittedBytes(l, Next(l, s, events[0]), events[1..])
  }

  predicate SomeFails(l: Limits, s: State, events: seq<Event>)
    requires Run(l, s, events).Reached?
    decreases |events|
  {
    events != [] && (Fails(l, s, events[0]) || SomeFails(l, Next(l, s, events[0]), events[1..]))
  }

  /** Some allocation is refused because of all that was ever allocated. */
  predicate SomeRefusedForTotal(l: Limits, s: State, events: seq<Event>)
    requires Run(l, s, events).Reached?
    decreases |events|
  {
    events != [] &&
    ((events[0].action.StartAlloc? && RefusedForTotal(l, s, events[0].action.size)) || SomeRefusedForTotal(l, Next(l, s, events[0]), events[1..]))
  }

  lemma OneStep(l: Limits, s: State, e: Event)
    requires Valid(l, s) && Enabled(s, e.thread, e.action) && !e.action.ResetAll?
    ensures var n, m := s.numbers, Next(l, s, e).numbers;
            && Valid(l, Next(l, s, e))
            && m.maxInUse == (if m.inUse > n.maxInUse then m.inUse else n.maxInUse)
            && m.seenOom == (n.seenOom || Fails(l, s, e))
            && m.totalAllocations == (if Admitted(l, s, e) then (n.totalAllocations + 1) % WORD else n.totalAllocations)
            && (!(e.action.StartAlloc? && RefusedForTotal(l, s, e.action.size)) ==>
                  m.totalBytes == n.totalBytes + if Admitted(l, s, e) then e.action.size else 0)
  {
    hide Placed, Sum, HeldBytes, HeldCount;
    StepKeeps(l, s, e.thread, e.action);
    if e.action.Release? || e.action.GiveUp? { CanGiveBack(l, s, e.thread); }
  }

  /** From any state on, as long as there is no `Reset`. */
  lemma {:induction false} RunTells(l: Limits, s: State, events: seq<Event>)
    requires Valid(l, s) && WithoutReset(events) && Run(l, s, events).Reached?
    ensures var n, m := s.numbers, Run(l, s, events).s.numbers;
            && m.maxInUse == (if Peak(l, s, events) > n.maxInUse then Peak(l, s, events) else n.maxInUse)
            && m.seenOom == (n.seenOom || SomeFails(l, s, events))
            && (n.totalAllocations < WORD ==> m.totalAllocations == (n.totalAllocations + AdmittedCount(l, s, events)) % WORD)
            && (!SomeRefusedForTotal(l, s, events) ==> m.totalBytes == n.totalBytes + AdmittedBytes(l, s, events))
    decreases |events|
  {
    hide Valid, Reserve, Enabled, Step, RefusedForTotal;
    assert s.numbers.inUse <= s.numbers.maxInUse by { InUseAtMost(l, s); }
    if events != [] {
      var e := events[0];
      assert !e.action.ResetAll?;
      OneStep(l, s, e);
      RunTells(l, Next(l, s, e), events[1..]);
    }
  }

  lemma InUseAtMost(l: Limits, s: State)
    requires Valid(l, s)
    ensures s.numbers.inUse <= s.numbers.maxInUse
  {
    hide Placed, Balanced;
  }

  /** Without `Reset`, in every interleaving: the maximum is that of all states of the run,
      memory ran out exactly if some allocation failed, the number of allocations is that of
      the reservations (in a word), and the total is that of their sizes unless one was
      refused because of it. */
  lemma StatisticsTell(l: Limits, threads: nat, events: seq<Event>)
    requires l.cap < WORD && l.totalCap < WORD && WithoutReset(events) && Run(l, Start(threads), events).Reached?
    ensures var m := Run(l, Start(threads), events).s.numbers;
            && m.maxInUse == Peak(l, Start(threads), events)
            && (m.seenOom <==> SomeFails(l, Start(threads), events))
            && m.totalAllocations == AdmittedCount(l, Start(threads), events) % WORD
            && (!SomeRefusedForTotal(l, Start(threads), events) ==> m.totalBytes == AdmittedBytes(l, Start(threads), events))
  {
    assert Valid(l, Start(threads)) by { AlwaysBalanced(l, threads, []); }
    RunTells(l, Start(threads), events);
  }
}
