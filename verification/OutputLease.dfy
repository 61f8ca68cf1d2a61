/** The runtime override of the capture output: publications, deferral behind the lock
    screen, promotion by a background worker and rollback by lease. */
module OutputLease {

  import opened Wrappers

  /** The five globals behind the output-override mutex. A lease of 0 means "none". */
  datatype State = State(
    runtime: Option<string>,
    deferred: Option<string>,
    nextLease: nat,
    runtimeLease: nat,
    deferredLease: nat)

  const Start := State(None, None, 0, 0, 0)

  /** What the platform reports when an output is published. */
  datatype Platform = Platform(isVirtual: bool, locked: bool, hasPhysical: bool)

  /** A virtual output waits behind the lock screen while a physical one can be captured. */
  predicate Defers(output: string, p: Platform) {
    output != "" && p.isVirtual && p.locked && p.hasPhysical
  }

  /** Publishing or clearing takes a new lease; at most one slot is filled afterwards. */
  function Publish(st: State, output: Option<string>, p: Platform): State {
    var lease := st.nextLease + 1;
    if output.None? then State(None, None, lease, 0, 0)
    else if Defers(output.value, p) then State(None, output, lease, 0, lease)
    else State(output, None, lease, lease, 0)
  }

  /** Rolling back with a lease empties the slots that carry it. */
  function Rollback(st: State, lease: nat): State {
    if lease == 0 then st
    else
      var st1 := if st.runtimeLease == lease then st.(runtime := None, runtimeLease := 0) else st;
      if st1.deferredLease == lease then st1.(deferred := None, deferredLease := 0) else st1
  }

  predicate Cleared(st: State, lease: nat) {
    lease != 0 && (st.runtimeLease == lease || st.deferredLease == lease)
  }

  /** The worker's critical section: it looks again under the lock before it promotes. */
  function Promote(st: State, locked: bool): State {
    if st.deferred.None? || st.deferred.value == "" || locked then st
    else State(st.deferred, None, st.nextLease, st.deferredLease, 0)
  }

  /** What capture uses: the runtime override, or the configured output. */
  function ActiveOutput(st: State, configured: string): string {
    if st.runtime.Some? then st.runtime.value else configured
  }

  //////////////////// The globals and their accessors ////////////////////

  class OutputOverride {
    var runtime: Option<string>
    var deferred: Option<string>
    var nextLease: nat
    var runtimeLease: nat
    var deferredLease: nat

    constructor ()
      ensures Abs() == Start
    {
      runtime, deferred, nextLease, runtimeLease, deferredLease := None, None, 0, 0, 0;
    }

    function Abs(): State
      reads this
    {
      State(runtime, deferred, nextLease, runtimeLease, deferredLease)
    }

    method SetRuntimeOutput(output: Option<string>, p: Platform) returns (lease: nat, wakeWorker: bool)
      modifies this
      ensures Abs() == Publish(old(Abs()), output, p)
      ensures lease == old(nextLease) + 1
      ensures wakeWorker == (output.Some? && Defers(output.value, p))
    {
      nextLease := nextLease + 1;
      lease, wakeWorker := nextLease, false;
      if output.None? {
        runtime, runtimeLease, deferred, deferredLease := None, 0, None, 0;
        return;
      }
      if output.value != "" && p.isVirtual && p.locked && p.hasPhysical {
        deferred, deferredLease := output, lease;
        runtime, runtimeLease := None, 0;
        wakeWorker := true;
      } else {
        runtime, runtimeLease := output, lease;
        deferred, deferredLease := None, 0;
      }
    }

    method ClearIfLease(lease: nat) returns (cleared: bool)
      modifies this
      ensures Abs() == Rollback(old(Abs()), lease)
      ensures cleared == Cleared(old(Abs()), lease)
    {
      if lease == 0 {
        return false;
      }
      cleared := false;
      if runtimeLease == lease {
        runtime, runtimeLease := None, 0;
        cleared := true;
      }
      if deferredLease == lease {
        deferred, deferredLease := None, 0;
        cleared := true;
      }
    }

    /** The worker's attempt; `locked` is what the platform says inside the lock. */
    method TryPromote(locked: bool) returns (applied: bool)
      modifies this
      ensures Abs() == Promote(old(Abs()), locked)
      ensures applied == (old(deferred).Some? && old(deferred).value != "" && !locked)
    {
      if deferred.None? || deferred.value == "" {
        return false;
      }
      applied := false;
      if !locked {
        runtime, runtimeLease := deferred, deferredLease;
        deferred, deferredLease := None, 0;
        applied := true;
      }
    }

    method GetActiveOutputName(configured: string) returns (name: string)
      ensures name == ActiveOutput(Abs(), configured)
    {
      if runtime.Some? {
        return runtime.value;
      }
      return configured;
    }
  }

  //////////////////// Runs ////////////////////

  /** One critical section of any thread. */
  datatype Event =
    | Published(output: Option<string>, platform: Platform)
    | RolledBack(lease: nat)
    | Promoted(locked: bool)

  function Apply(st: State, e: Event): State {
    match e
    case Published(output, p) => Publish(st, output, p)
    case RolledBack(lease) => Rollback(st, lease)
    case Promoted(locked) => Promote(st, locked)
  }

  /** The state after the events, in any interleaving of threads. */
  function After(es: seq<Event>): State {
    if es == [] then Start else Apply(After(es[..|es| - 1]), es[|es| - 1])
  }

  /** Everything published so far: lease n is publication n - 1. */
  function Publications(es: seq<Event>): seq<Option<string>> {
    if es == [] then []
    else
      var e := es[|es| - 1];
      Publications(es[..|es| - 1]) + if e.Published? then [e.output] else []
  }

  /** At most one slot is filled, it is filled with the latest publication and carries its
      lease, and leases count publications. */
  predicate Invariant(st: State, published: seq<Option<string>>) {
    && st.nextLease == |published|
    && (st.runtime.Some? || st.deferred.Some? ==> published != [])
    && (if st.runtime.Some? then
          && st.deferred.None? && st.deferredLease == 0
          && st.runtimeLease == |published| && st.runtime == published[|published| - 1]
        else st.runtimeLease == 0)
    && (if st.deferred.Some? then
          st.deferredLease == |published| && st.deferred == published[|published| - 1] && st.deferred.value != ""
        else st.deferredLease == 0)
  }

  lemma {:induction false} EveryRunKeepsInvariant(es: seq<Event>)
    ensures Invariant(After(es), Publications(es))
  {
    if es != [] { EveryRunKeepsInvariant(es[..|es| - 1]); }
  }

  /** Leases strictly increase from publication to publication. */
  lemma {:induction false} LeasesIncrease(es: seq<Event>, i: nat, j: nat)
    requires i < j < |es| && es[i].Published? && es[j].Published?
    ensures After(es[..i + 1]).nextLease < After(es[..j + 1]).nextLease
  {
    NextLeaseGrows(es, i + 1, j);
    assert es[..j + 1][..j] == es[..j];
  }

  lemma {:induction false} NextLeaseGrows(es: seq<Event>, i: nat, j: nat)
    requires i <= j <= |es|
    ensures After(es[..i]).nextLease <= After(es[..j]).nextLease
    decreases j
  {
    if i < j {
      NextLeaseGrows(es, i, j - 1);
      assert es[..j][..j - 1] == es[..j - 1];
    }
  }

  /** A rollback succeeds exactly for the lease of the latest publication, while that is
      still in force; with any other lease it changes nothing. */
  lemma RollbackOnlyLatest(es: seq<Event>, lease: nat)
    ensures var st := After(es);
            && (Cleared(st, lease) <==> lease == |Publications(es)| && (st.runtime.Some? || st.deferred.Some?))
            && (!Cleared(st, lease) ==> Rollback(st, lease) == st)
            && (Cleared(st, lease) ==> Rollback(st, lease) == st.(runtime := None, deferred := None, runtimeLease := 0, deferredLease := 0))
  {
    EveryRunKeepsInvariant(es);
  }

  //////////////////// The simpler protocol it implements ////////////////////

  /** Where the latest publication stands: nowhere, waiting behind the lock screen, or in force. */
  datatype Slot = Off | Waiting(output: string, lease: nat) | InForce(output: string, lease: nat)

  datatype Register = Register(slot: Slot, leases: nat)

  function SpecApply(r: Register, e: Event): Register {
    match e
    case Published(output, p) =>
      Register(if output.None? then Off
               else if Defers(output.value, p) then Waiting(output.value, r.leases + 1)
               else InForce(output.value, r.leases + 1),
               r.leases + 1)
    case RolledBack(lease) =>
      if !r.slot.Off? && r.slot.lease == lease then r.(slot := Off) else r
    case Promoted(locked) =>
      if r.slot.Waiting? && !locked then r.(slot := InForce(r.slot.output, r.slot.lease)) else r
  }

  function SpecAfter(es: seq<Event>): Register {
    if es == [] then Register(Off, 0) else SpecApply(SpecAfter(es[..|es| - 1]), es[|es| - 1])
  }

  function View(st: State): Register {
    Register(if st.runtime.Some? then InForce(st.runtime.value, st.runtimeLease)
             else if st.deferred.Some? then Waiting(st.deferred.value, st.deferredLease)
             else Off,
             st.nextLease)
  }

  /** The five globals behave like one register holding the latest publication. */
  lemma {:induction false} ImplementsRegister(es: seq<Event>)
    ensures View(After(es)) == SpecAfter(es)
  {
    if es != [] {
      ImplementsRegister(es[..|es| - 1]);
      EveryRunKeepsInvariant(es[..|es| - 1]);
    }
  }

  /** Capture never sees anything but the latest publication or the configured output: a
      deferred output shows only after a promotion, and an older one never again. */
  lemma CaptureSeesLatest(es: seq<Event>, configured: string)
    ensures var st, published := After(es), Publications(es);
            && (st.runtime.Some? ==> published != [] && Some(ActiveOutput(st, configured)) == published[|published| - 1])
            && (st.runtime.None? ==> ActiveOutput(st, configured) == configured)
  {
    EveryRunKeepsInvariant(es);
  }

  /** A publication waits exactly if it names a virtual output while the screen is locked and a
      physical one can be captured; otherwise it is in force at once. Clearing leaves neither. */
  lemma PublicationWaitsExactly(st: State, output: string, p: Platform)
    ensures var after, waits := Publish(st, Some(output), p), output != "" && p.isVirtual && p.locked && p.hasPhysical;
            && (waits ==> after.deferred == Some(output) && after.runtime == None)
            && (!waits ==> after.runtime == Some(output) && after.deferred == None)
            && ActiveOutput(after, "configured") == (if waits then "configured" else output)
    ensures var after := Publish(st, None, p); after.runtime == None && after.deferred == None && after.nextLease == st.nextLease + 1
  {
  }

  /** A promotion puts the waiting output in force exactly while the screen is unlocked. */
  lemma PromotionNeedsUnlock(es: seq<Event>, locked: bool)
    ensures var st := After(es);
            Promote(st, locked) ==
            if st.deferred.Some? && !locked then State(st.deferred, None, st.nextLease, st.deferredLease, 0) else st
  {
    EveryRunKeepsInvariant(es);
  }
}
