/** A memory manager that counts what passes through it, called from many threads.
    Its counters and its table of addresses have a lock each; between the two, and
    around the calls of the inner allocator, other threads may do anything. */
module TrackingMemory {

  const WORD := 0x1_0000_0000_0000_0000

  type Address = nat

  /** What the first lock guards. */
  datatype Numbers = Numbers(inUse: nat, allocations: nat, maxInUse: nat, totalAllocations: nat, totalBytes: nat, seenOom: bool)

  /** The limits; zero means that there is none. */
  datatype Limits = Limits(cap: nat, totalCap: nat)

  predicate Overflows(sum: nat, size: nat, cap: nat) {
    sum % WORD < size || (cap != 0 && sum % WORD > cap)
  }

  /** The first critical section of `Alloc`: reserve, or refuse. */
  function Reserve(l: Limits, n: Numbers, size: nat): (Numbers, bool) {
    if Overflows(n.totalBytes + size, size, l.totalCap) then
      (n.(totalBytes := l.totalCap, seenOom := true), false)
    else if Overflows(n.inUse + size, size, l.cap) then
      (n.(seenOom := true), false)
    else
      var inUse := (n.inUse + size) % WORD;
      (n.(allocations := n.allocations + 1, totalAllocations := (n.totalAllocations + 1) % WORD, inUse := inUse,
          maxInUse := if inUse > n.maxInUse then inUse else n.maxInUse, totalBytes := (n.totalBytes + size) % WORD), true)
  }

  /** Giving back a reservation: `bytes_in_use_ -= size`. */
  function Return(n: Numbers, size: nat): Numbers
    requires n.allocations > 0 && size < WORD
  {
    n.(allocations := n.allocations - 1, inUse := (n.inUse - size) % WORD)
  }

  class TrackingMemoryManager {
    const limits: Limits
    var bytesInUse: nat
    var numAllocations: nat
    var maxBytesInUse: nat
    var totalAllocations: nat
    var totalBytesAllocated: nat
    var seenOom: bool
    var allocations: map<Address, nat>

    function Counted(): Numbers
      reads this
    {
      Numbers(bytesInUse, numAllocations, maxBytesInUse, totalAllocations, totalBytesAllocated, seenOom)
    }

    /** The object is in a state of the machine: counters and table are those of the state. */
    ghost predicate StandsFor(s: State)
      reads this
    {
      Counted() == s.numbers && allocations == s.allocations
    }

    method ReserveBytes(size: nat) returns (ok: bool)
      modifies this`bytesInUse, this`numAllocations, this`maxBytesInUse, this`totalAllocations, this`totalBytesAllocated, this`seenOom
      ensures (Counted(), ok) == Reserve(limits, old(Counted()), size)
      ensures forall s, t: nat :: old(StandsFor(s)) && Enabled(s, t, StartAlloc(size)) ==>
                StandsFor(Step(limits, s, t, StartAlloc(size)))
                && (Step(limits, s, t, StartAlloc(size)).threads[t] == if ok then Reserved(size) else Idle)
    {
      var newTotal := (totalBytesAllocated + size) % WORD;
      if newTotal < size || (limits.totalCap != 0 && newTotal > limits.totalCap) {
        totalBytesAllocated := limits.totalCap;
        seenOom := true;
        return false;
      }
      var newBytesInUse := (bytesInUse + size) % WORD;
      if newBytesInUse < size || (limits.cap != 0 && newBytesInUse > limits.cap) {
        seenOom := true;
        return false;
      }
      numAllocations := numAllocations + 1;
      totalAllocations := (totalAllocations + 1) % WORD;
      bytesInUse := newBytesInUse;
      maxBytesInUse := if newBytesInUse > maxBytesInUse then newBytesInUse else maxBytesInUse;
      totalBytesAllocated := newTotal;
      return true;
    }

    method RecordAddress(result: Address, size: nat)
      modifies this`allocations
      ensures allocations == old(allocations)[result := size]
      ensures forall s, t: nat :: old(StandsFor(s)) && Enabled(s, t, Record) && s.threads[t] == Obtained(result, size) ==>
                StandsFor(Step(limits, s, t, Record))
    {
      allocations := allocations[result := size];
    }

    method RollBack(size: nat)
      requires numAllocations > 0 && size < WORD
      modifies this`bytesInUse, this`numAllocations, this`seenOom
      ensures Counted() == Return(old(Counted()).(seenOom := true), size)
      ensures forall s, t: nat :: old(StandsFor(s)) && Enabled(s, t, GiveUp) && s.threads[t] == Failed(size) ==>
                StandsFor(Step(limits, s, t, GiveUp))
    {
      seenOom := true;
      numAllocations := numAllocations - 1;
      bytesInUse := (bytesInUse - size) % WORD;
    }

    method EraseAddress(address: Address) returns (found: bool, size: nat)
      modifies this`allocations
      ensures found <==> address in old(allocations)
      ensures found ==> size == old(allocations)[address]
      ensures allocations == old(allocations) - {address}
      ensures forall s, t: nat :: old(StandsFor(s)) && Enabled(s, t, StartFree(address)) ==>
                found && StandsFor(Step(limits, s, t, StartFree(address)))
                && Step(limits, s, t, StartFree(address)).threads[t] == Released(address, size)
    {
      found, size := false, 0;
      if address in allocations {
        found := true;
        size := allocations[address];
        allocations := allocations - {address};
      }
    }

    method ReleaseBytes(size: nat)
      requires numAllocations > 0 && size < WORD
      modifies this`bytesInUse, this`numAllocations
      ensures Counted() == Return(old(Counted()), size)
      ensures forall s, t: nat, address :: old(StandsFor(s)) && Enabled(s, t, Release) && s.threads[t] == Released(address, size) ==>
                StandsFor(Step(limits, s, t, Release)) && Step(limits, s, t, Release).threads[t] == Returning(address)
    {
      numAllocations := numAllocations - 1;
      bytesInUse := (bytesInUse - size) % WORD;
    }

    method Reset() returns (ok: bool)
      modifies this`seenOom, this`maxBytesInUse, this`totalAllocations, this`totalBytesAllocated
      ensures ok <==> Clean(old(Counted()), allocations)
      ensures Counted() == if ok then Restarted(old(Counted())) else old(Counted())
      ensures forall s, t: nat :: old(StandsFor(s)) && Enabled(s, t, ResetAll) ==> StandsFor(Step(limits, s, t, ResetAll))
    {
      if numAllocations != 0 {
        return false;
      }
      if allocations != map[] {
        return false;
      }
      if bytesInUse != 0 {
        return false;
      }
      seenOom, maxBytesInUse, totalAllocations, totalBytesAllocated := false, 0, 0, 0;
      return true;
    }
  }

  predicate Clean(n: Numbers, allocations: map<Address, nat>) {
    n.allocations == 0 && allocations == map[] && n.inUse == 0
  }

  function Restarted(n: Numbers): Numbers {
    n.(seenOom := false, maxInUse := 0, totalAllocations := 0, totalBytes := 0)
  }

  // ------------------------------------------------------------ threads

  /** Where a thread is between the critical sections and the inner calls. */
  datatype Phase =
    | Idle
    | Reserved(size: nat)
    | Obtained(address: Address, size: nat)
    | Failed(size: nat)
    | Released(address: Address, size: nat)
    | Returning(address: Address)

  /** `live` are the addresses that the inner allocator has handed out. */
  datatype State = State(numbers: Numbers, allocations: map<Address, nat>, live: set<Address>, threads: seq<Phase>)

  datatype Action =
    | StartAlloc(size: nat)
    | InnerAlloc(address: Address)
    | InnerFail
    | Record
    | GiveUp
    | StartFree(address: Address)
    | Release
    | InnerFree
    | ResetAll

  predicate Quiet(s: State) {
    forall t :: 0 <= t < |s.threads| ==> s.threads[t].Idle?
  }

  /** What thread `t` can do.  The inner allocator hands out only addresses that it has
      not handed out already; callers free what they got, and once. */
  predicate Enabled(s: State, t: nat, a: Action) {
    t < |s.threads| &&
    match a
    case StartAlloc(size) => s.threads[t].Idle? && size < WORD
    case InnerAlloc(address) => s.threads[t].Reserved? && address !in s.live
    case InnerFail => s.threads[t].Reserved?
    case Record => s.threads[t].Obtained?
    case GiveUp => s.threads[t].Failed? && s.numbers.allocations > 0 && s.threads[t].size < WORD
    case StartFree(address) => s.threads[t].Idle? && address in s.allocations
    case Release => s.threads[t].Released? && s.numbers.allocations > 0 && s.threads[t].size < WORD
    case InnerFree => s.threads[t].Returning?
    case ResetAll => Quiet(s)
  }

  function Step(l: Limits, s: State, t: nat, a: Action): State
    requires Enabled(s, t, a)
  {
    match a
    case StartAlloc(size) =>
      var (n, ok) := Reserve(l, s.numbers, size);
      s.(numbers := n, threads := if ok then s.threads[t := Reserved(size)] else s.threads)
    case InnerAlloc(address) =>
      s.(live := s.live + {address}, threads := s.threads[t := Obtained(address, s.threads[t].size)])
    case InnerFail =>
      s.(threads := s.threads[t := Failed(s.threads[t].size)])
    case Record =>
      s.(allocations := s.allocations[s.threads[t].address := s.threads[t].size], threads := s.threads[t := Idle])
    case GiveUp =>
      s.(numbers := Return(s.numbers.(seenOom := true), s.threads[t].size), threads := s.threads[t := Idle])
    case StartFree(address) =>
      s.(allocations := s.allocations - {address}, threads := s.threads[t := Released(address, s.allocations[address])])
    case Release =>
      s.(numbers := Return(s.numbers, s.threads[t].size), threads := s.threads[t := Returning(s.threads[t].address)])
    case InnerFree =>
      s.(live := s.live - {s.threads[t].address}, threads := s.threads[t := Idle])
    case ResetAll =>
      if Clean(s.numbers, s.allocations) then s.(numbers := Restarted(s.numbers)) else s
  }

  // ------------------------------------------------------------ the accounts

  /** The bytes a thread has reserved and not yet recorded, or erased and not yet released. */
  function Held(p: Phase): nat {
    if p.Reserved? || p.Obtained? || p.Failed? || p.Released? then p.size else 0
  }

  function Holds(p: Phase): nat {
    if p.Reserved? || p.Obtained? || p.Failed? || p.Released? then 1 else 0
  }

  function HeldBytes(threads: seq<Phase>): nat {
    if threads == [] then 0 else Held(threads[0]) + HeldBytes(threads[1..])
  }

  function HeldCount(threads: seq<Phase>): nat {
    if threads == [] then 0 else Holds(threads[0]) + HeldCount(threads[1..])
  }

  lemma {:induction false} HeldUpdate(threads: seq<Phase>, t: nat, p: Phase)
    requires t < |threads|
    ensures HeldBytes(threads[t := p]) == HeldBytes(threads) - Held(threads[t]) + Held(p)
    ensures HeldCount(threads[t := p]) == HeldCount(threads) - Holds(threads[t]) + Holds(p)
  {
    if t == 0 {
      assert threads[0 := p][1..] == threads[1..];
    } else {
      HeldUpdate(threads[1..], t - 1, p);
      assert threads[t := p][1..] == threads[1..][t - 1 := p];
    }
  }

  ghost function Sum(m: map<Address, nat>): nat {
    if m == map[] then 0
    else
      var a :| a in m;
      m[a] + Sum(m - {a})
  }

  /** The sum does not depend on the order of the entries. */
  lemma {:induction false} SumWithout(m: map<Address, nat>, a: Address)
    requires a in m
    ensures Sum(m) == m[a] + Sum(m - {a})
    decreases |m|
  {
    var b :| b in m && Sum(m) == m[b] + Sum(m - {b});
    if a != b {
      SumWithout(m - {b}, a);
      SumWithout(m - {a}, b);
      assert m - {a} - {b} == m - {b} - {a};
    }
  }

  lemma SumWith(m: map<Address, nat>, a: Address, size: nat)
    requires a !in m
    ensures Sum(m[a := size]) == Sum(m) + size && |m[a := size]| == |m| + 1
  {
    SumWithout(m[a := size], a);
    assert m[a := size] - {a} == m;
  }

  /** The address in the hands of a thread. */
  predicate HasAddress(p: Phase, a: Address) {
    (p.Obtained? || p.Released? || p.Returning?) && p.address == a
  }

  /** Every address that is out is in the table or in the hands of one thread. */
  ghost predicate Placed(s: State) {
    && (forall a :: a in s.allocations ==> a in s.live)
    && (forall t, a :: 0 <= t < |s.threads| && HasAddress(s.threads[t], a) ==> a in s.live && a !in s.allocations)
    && (forall t, u, a :: 0 <= t < |s.threads| && 0 <= u < |s.threads| && HasAddress(s.threads[t], a) && HasAddress(s.threads[u], a) ==> t == u)
    && (forall a :: a in s.live ==> a in s.allocations || exists t :: 0 <= t < |s.threads| && HasAddress(s.threads[t], a))
  }

  /** The counters are the recorded entries and what the threads hold. */
  ghost predicate Balanced(s: State) {
    && s.numbers.inUse == Sum(s.allocations) + HeldBytes(s.threads)
    && s.numbers.allocations == |s.allocations| + HeldCount(s.threads)
  }

  predicate WithinLimits(l: Limits, n: Numbers) {
    && n.inUse < WORD && n.totalBytes < WORD && n.inUse <= n.maxInUse
    && (l.cap != 0 ==> n.inUse <= n.maxInUse <= l.cap)
    && (l.totalCap != 0 ==> n.totalBytes <= l.totalCap)
  }

  ghost predicate Valid(l: Limits, s: State) {
    && l.cap < WORD && l.totalCap < WORD
    && Placed(s) && Balanced(s) && WithinLimits(l, s.numbers)
  }

  lemma {:induction false} HeldAtMost(threads: seq<Phase>, t: nat)
    requires t < |threads|
    ensures Held(threads[t]) <= HeldBytes(threads) && Holds(threads[t]) <= HeldCount(threads)
  {
    if t > 0 { HeldAtMost(threads[1..], t - 1); }
  }

  /** No counter ever wraps around below zero: what is given back is accounted for. */
  lemma CanGiveBack(l: Limits, s: State, t: nat)
    requires Valid(l, s) && t < |s.threads| && (s.threads[t].Failed? || s.threads[t].Released?)
    ensures s.numbers.allocations > 0 && s.threads[t].size <= s.numbers.inUse < WORD
  {
    HeldAtMost(s.threads, t);
  }

  lemma ReserveKeeps(l: Limits, s: State, t: nat, size: nat)
    requires Valid(l, s) && Enabled(s, t, StartAlloc(size))
    ensures Balanced(Step(l, s, t, StartAlloc(size))) && WithinLimits(l, Step(l, s, t, StartAlloc(size)).numbers)
  {
    hide Placed;
    HeldUpdate(s.threads, t, Reserved(size));
  }

  lemma ReturnKeeps(l: Limits, s: State, t: nat, a: Action)
    requires Valid(l, s) && Enabled(s, t, a) && (a.GiveUp? || a.Release?)
    ensures Balanced(Step(l, s, t, a)) && WithinLimits(l, Step(l, s, t, a).numbers)
  {
    hide Placed;
    HeldUpdate(s.threads, t, if a.GiveUp? then Idle else Returning(s.threads[t].address));
    CanGiveBack(l, s, t);
  }

  lemma TableKeeps(l: Limits, s: State, t: nat, a: Action)
    requires Valid(l, s) && Enabled(s, t, a) && (a.Record? || a.StartFree?)
    ensures Balanced(Step(l, s, t, a))
  {
    if a.Record? {
      HeldUpdate(s.threads, t, Idle);
      NotYetRecorded(s, t);
      SumWith(s.allocations, s.threads[t].address, s.threads[t].size);
    } else {
      HeldUpdate(s.threads, t, Released(a.address, s.allocations[a.address]));
      SumWithout(s.allocations, a.address);
      assert (s.allocations - {a.address}).Keys == s.allocations.Keys - {a.address};
    }
  }

  lemma NumbersKeep(l: Limits, s: State, t: nat, a: Action)
    requires Valid(l, s) && Enabled(s, t, a)
    ensures Balanced(Step(l, s, t, a)) && WithinLimits(l, Step(l, s, t, a).numbers)
  {
    if a.StartAlloc? {
      ReserveKeeps(l, s, t, a.size);
    } else if a.GiveUp? || a.Release? {
      ReturnKeeps(l, s, t, a);
    } else if a.Record? || a.StartFree? {
      TableKeeps(l, s, t, a);
    } else if a.InnerAlloc? {
      HeldUpdate(s.threads, t, Obtained(a.address, s.threads[t].size));
    } else if a.InnerFail? {
      HeldUpdate(s.threads, t, Failed(s.threads[t].size));
    } else if a.InnerFree? {
      HeldUpdate(s.threads, t, Idle);
    }
  }

  lemma NotYetRecorded(s: State, t: nat)
    requires Placed(s) && t < |s.threads| && s.threads[t].Obtained?
    ensures s.threads[t].address !in s.allocations
  {
    assert HasAddress(s.threads[t], s.threads[t].address);
  }

  /** Because the entry is erased before the address goes back, an address that is handed
      out again is never still in the table. */
  lemma PlacesKeep(l: Limits, s: State, t: nat, a: Action)
    requires Placed(s) && Enabled(s, t, a)
    ensures Placed(Step(l, s, t, a))
  {
    var next := Step(l, s, t, a);
    var p, q := s.threads[t], next.threads[t];
    assert forall u :: 0 <= u < |s.threads| && u != t ==> next.threads[u] == s.threads[u];
    if a.InnerAlloc? {
      assert HasAddress(q, a.address);
    } else if a.Record? {
      assert HasAddress(p, p.address);
    } else if a.StartFree? {
      assert HasAddress(q, a.address);
    } else if a.Release? || a.InnerFree? {
      assert HasAddress(p, p.address);
      assert a.Release? ==> HasAddress(q, p.address);
    }
    forall x | x in next.live ensures x in next.allocations || exists u :: 0 <= u < |next.threads| && HasAddress(next.threads[u], x) {
      if x in s.live && x !in s.allocations {
        var u :| 0 <= u < |s.threads| && HasAddress(s.threads[u], x);
        if u != t { assert HasAddress(next.threads[u], x); } else { assert HasAddress(p, x); }
      }
    }
  }

  /** Every step of every thread keeps the accounts. */
  lemma StepKeeps(l: Limits, s: State, t: nat, a: Action)
    requires Valid(l, s) && Enabled(s, t, a)
    ensures Valid(l, Step(l, s, t, a))
  {
    NumbersKeep(l, s, t, a);
    PlacesKeep(l, s, t, a);
  }

  // ------------------------------------------------------------ runs

  datatype Event = Event(thread: nat, action: Action)

  /** The state after a run, if each of its events could happen. */
  datatype Reached = Impossible | Reached(s: State)

  function Run(l: Limits, s: State, events: seq<Event>): Reached
    decreases |events|
  {
    if events == [] then Reached(s)
    else if Enabled(s, events[0].thread, events[0].action) then
      Run(l, Step(l, s, events[0].thread, events[0].action), events[1..])
    else Impossible
  }

  function Start(threads: nat): State {
    State(Numbers(0, 0, 0, 0, 0, false), map[], {}, seq(threads, t => Idle))
  }

  lemma {:induction false} IdleHoldsNothing(threads: seq<Phase>)
    requires forall t :: 0 <= t < |threads| ==> threads[t].Idle?
    ensures HeldBytes(threads) == 0 && HeldCount(threads) == 0
  {
    if threads != [] { IdleHoldsNothing(threads[1..]); }
  }

  lemma {:induction false} RunKeeps(l: Limits, s: State, events: seq<Event>)
    requires Valid(l, s) && Run(l, s, events).Reached?
    ensures Valid(l, Run(l, s, events).s)
    decreases |events|
  {
    if events != [] {
      StepKeeps(l, s, events[0].thread, events[0].action);
      RunKeeps(l, Step(l, s, events[0].thread, events[0].action), events[1..]);
    }
  }

  /** In every state that any interleaving reaches, the accounts are right and the limit holds. */
  lemma AlwaysBalanced(l: Limits, threads: nat, events: seq<Event>)
    requires l.cap < WORD && l.totalCap < WORD && Run(l, Start(threads), events).Reached?
    ensures var s := Run(l, Start(threads), events).s;
            Valid(l, s) && (l.cap != 0 ==> s.numbers.inUse <= l.cap)
  {
    IdleHoldsNothing(Start(threads).threads);
    assert Sum(map[]) == 0;
    RunKeeps(l, Start(threads), events);
  }

  /** How many allocations succeeded, and how many were freed. */
  function Succeeded(events: seq<Event>): nat {
    if events == [] then 0 else (if events[0].action.Record? then 1 else 0) + Succeeded(events[1..])
  }

  function Freed(events: seq<Event>): nat {
    if events == [] then 0 else (if events[0].action.StartFree? then 1 else 0) + Freed(events[1..])
  }

  lemma {:induction false} EntriesAreUnfreed(l: Limits, s: State, events: seq<Event>)
    requires Valid(l, s) && Run(l, s, events).Reached?
    ensures |Run(l, s, events).s.allocations| == |s.allocations| + Succeeded(events) - Freed(events)
    decreases |events|
  {
    if events != [] {
      var t, a := events[0].thread, events[0].action;
      var next := Step(l, s, t, a);
      StepKeeps(l, s, t, a);
      if a.Record? {
        NotYetRecorded(s, t);
        SumWith(s.allocations, s.threads[t].address, s.threads[t].size);
      } else if a.StartFree? {
        assert s.allocations == (s.allocations - {a.address})[a.address := s.allocations[a.address]];
        SumWith(s.allocations - {a.address}, a.address, s.allocations[a.address]);
      }
      EntriesAreUnfreed(l, next, events[1..]);
    }
  }

  /** When no call is under way, `Reset` succeeds exactly if every successful allocation
      was freed. */
  lemma ResetIffAllFreed(l: Limits, threads: nat, events: seq<Event>)
    requires l.cap < WORD && l.totalCap < WORD
    requires var r := Run(l, Start(threads), events); r.Reached? && Quiet(r.s)
    ensures var s := Run(l, Start(threads), events).s;
            Clean(s.numbers, s.allocations) <==> Succeeded(events) == Freed(events)
  {
    AlwaysBalanced(l, threads, events);
    AlwaysBalanced(l, threads, []);
    EntriesAreUnfreed(l, Start(threads), events);
    var s := Run(l, Start(threads), events).s;
    IdleHoldsNothing(s.threads);
    assert Sum(map[]) == 0;
  }

  // ------------------------------------------------------------ the limit on the total

  predicate WithoutReset(events: seq<Event>) {
    forall i :: 0 <= i < |events| ==> !events[i].action.ResetAll?
  }

  /** The allocation is refused because of all that was ever allocated. */
  predicate RefusedForTotal(l: Limits, s: State, size: nat) {
    Overflows(s.numbers.totalBytes + size, size, l.totalCap)
  }

  /** The state after thread `t` was refused. */
  function Refused(l: Limits, s: State, t: nat, size: nat): State
    requires Enabled(s, t, StartAlloc(size))
  {
    Step(l, s, t, StartAlloc(size))
  }

  /** The state `r` comes after a refusal for the total, with no `Reset` in between. */
  ghost predicate AfterRefusal(l: Limits, threads: nat, before: seq<Event>, t: nat, size: nat, after: seq<Event>, r: State) {
    && Run(l, Start(threads), before).Reached?
    && var s := Run(l, Start(threads), before).s;
    && Enabled(s, t, StartAlloc(size)) && RefusedForTotal(l, s, size)
    && WithoutReset(after) && Run(l, Refused(l, s, t, size), after) == Reached(r)
  }

  /** After such a refusal no allocation of at least one byte is admitted until `Reset`. */
  ghost predicate Lasting(l: Limits) {
    forall threads, before, t, size, after, r, more: nat ::
      AfterRefusal(l, threads, before, t, size, after, r) && 0 < more < WORD ==> !Reserve(l, r.numbers, more).1
  }

  /** At the limit the total stays, whatever the threads allocate and free. */
  lemma {:induction false} TotalStays(l: Limits, s: State, events: seq<Event>)
    requires 0 < l.totalCap < WORD && s.numbers.totalBytes == l.totalCap
    requires WithoutReset(events) && Run(l, s, events).Reached?
    ensures Run(l, s, events).s.numbers.totalBytes == l.totalCap
    decreases |events|
  {
    if events != [] {
      var next := Step(l, s, events[0].thread, events[0].action);
      assert !events[0].action.ResetAll?;
      assert next.numbers.totalBytes == l.totalCap;
      TotalStays(l, next, events[1..]);
    }
  }

  lemma RefusedAtLimit(l: Limits, n: Numbers, size: nat)
    requires 0 < l.totalCap < WORD && n.totalBytes == l.totalCap && 0 < size < WORD
    ensures !Reserve(l, n, size).1
  {
  }

  /** Allocations that the inner allocator refuses leave nothing in use, but count. */
  lemma {:induction false} Climb(l: Limits, s: State, size: nat) returns (events: seq<Event>)
    requires l.totalCap == 0 && 0 < size < WORD && (l.cap == 0 || size <= l.cap)
    requires |s.threads| == 1 && s.threads[0].Idle? && s.numbers.inUse == 0 && s.numbers.totalBytes < WORD
    ensures var r := Run(l, s, events);
            && r.Reached? && |r.s.threads| == 1 && r.s.threads[0].Idle? && r.s.numbers.inUse == 0
            && r.s.numbers.totalBytes < WORD <= r.s.numbers.totalBytes + size
    decreases WORD - s.numbers.totalBytes
  {
    events := [];
    if s.numbers.totalBytes + size < WORD {
      var round := [Event(0, StartAlloc(size)), Event(0, InnerFail), Event(0, GiveUp)];
      var a := Step(l, s, 0, StartAlloc(size));
      var b := Step(l, a, 0, InnerFail);
      var c := Step(l, b, 0, GiveUp);
      assert a.numbers.totalBytes == s.numbers.totalBytes + size && a.numbers.inUse == size;
      var rest := Climb(l, c, size);
      events := round + rest;
      assert events[1..] == round[1..] + rest && events[1..][1..] == round[2..] + rest && events[1..][1..][1..] == rest;
      assert Run(l, s, events) == Run(l, a, events[1..]) == Run(l, b, events[1..][1..]) == Run(l, c, rest);
    }
  }

  /** A refusal for the total lasts until `Reset` exactly if there is a limit on the total.
      Without one, the total that wraps around is set to zero, and the next allocation is
      admitted again. */
  lemma TotalLimitIffLasting(l: Limits)
    requires l.cap < WORD && l.totalCap < WORD
    ensures Lasting(l) <==> l.totalCap != 0
  {
    if l.totalCap != 0 {
      forall threads, before, t, size, after, r, more: nat | AfterRefusal(l, threads, before, t, size, after, r) && 0 < more < WORD
        ensures !Reserve(l, r.numbers, more).1
      {
        var s := Run(l, Start(threads), before).s;
        TotalStays(l, Refused(l, s, t, size), after);
        RefusedAtLimit(l, r.numbers, more);
      }
    } else {
      var size := if l.cap == 0 then WORD - 1 else l.cap;
      var before := Climb(l, Start(1), size);
      var s := Run(l, Start(1), before).s;
      var r := Refused(l, s, 0, size);
      assert AfterRefusal(l, 1, before, 0, size, [], r);
      assert Reserve(l, r.numbers, 1).1;
    }
  }
}
