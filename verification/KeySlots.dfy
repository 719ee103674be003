/** Native key slots with compare-and-swap epochs, and the accounting of the calls that use them. */
module KeySlots {
  import opened Options
  import opened Words

  const SLOTS: nat := 16
  const LAST_EPOCH: nat := 0xFFFF_FFFF_FFFF_FFFF

  datatype Kind = Aes256 | P256

  /** An emptied slot keeps its epoch and kind; the key bytes are wiped. */
  datatype Slot = Slot(key: Bytes, epoch: nat, kind: Kind, loaded: bool)

  datatype Code = Ok | Invalid | KeyMissing | KeyConflict | OtherError

  const UNUSED: Slot := Slot([], 0, Aes256, false)

  type Table = t: seq<Slot> | |t| == SLOTS witness seq(SLOTS, _ => UNUSED)

  function Unused(): Table {
    seq(SLOTS, _ => UNUSED)
  }

  // ----- Put and remove

  /** Some loaded slot holds this AES key. */
  predicate Duplicate(t: Table, key: Bytes) {
    exists s | 0 <= s < SLOTS :: t[s].loaded && t[s].kind.Aes256? && t[s].key == key
  }

  function Put(t: Table, slot: nat, kind: Kind, key: Bytes, valid: bool, expected: nat): (Table, Code) {
    if slot >= SLOTS || (kind.P256? && !valid) then (t, Invalid)
    else if t[slot].epoch != expected || t[slot].epoch == LAST_EPOCH then (t, KeyConflict)
    else if kind.Aes256? && Duplicate(t, key) then (t, KeyConflict)
    else (t[slot := Slot(key, t[slot].epoch + 1, kind, true)], Ok)
  }

  function Remove(t: Table, slot: nat, expected: nat): (Table, Code) {
    if slot >= SLOTS then (t, Invalid)
    else if t[slot].epoch != expected || t[slot].epoch == LAST_EPOCH then (t, KeyConflict)
    else if !t[slot].loaded then (t, KeyMissing)
    else (t[slot := Slot([], t[slot].epoch + 1, t[slot].kind, false)], Ok)
  }

  /** Which key a call may use, if any: the slot must hold a key of the right kind, under the required epoch if one is
      required. */
  function Select(t: Table, slot: nat, kind: Kind, required: Option<nat>): (Option<Bytes>, Code)
    requires slot < SLOTS
  {
    var k := t[slot];
    if required.Some? && required.value != k.epoch then (None, KeyConflict)
    else if !k.loaded then (None, KeyMissing)
    else if k.kind != kind then (None, Invalid)
    else (Some(k.key), Ok)
  }

  // ----- Runs

  datatype Step =
    | PutStep(slot: nat, kind: Kind, key: Bytes, valid: bool, expected: nat)
    | RemoveStep(slot: nat, expected: nat)
    | CallStep(slot: nat, kind: Kind, required: Option<nat>)

  function Next(t: Table, step: Step): Table {
    match step
    case PutStep(slot, kind, key, valid, expected) => Put(t, slot, kind, key, valid, expected).0
    case RemoveStep(slot, expected) => Remove(t, slot, expected).0
    case CallStep(_, _, _) => t
  }

  function After(steps: seq<Step>, n: nat): Table
    requires n <= |steps|
  {
    if n == 0 then Unused() else Next(After(steps, n - 1), steps[n - 1])
  }

  predicate Inv(t: Table) {
    && (forall s | 0 <= s < SLOTS :: t[s].epoch <= LAST_EPOCH && (t[s].loaded ==> t[s].epoch > 0))
    && forall r, s | 0 <= r < s < SLOTS && t[r].loaded && t[s].loaded && t[r].kind.Aes256? && t[s].kind.Aes256? ::
         t[r].key != t[s].key
  }

  lemma NextKeeps(t: Table, step: Step)
    requires Inv(t)
    ensures Inv(Next(t, step))
  {
    var t' := Next(t, step);
    if step.PutStep? && t' != t && step.kind.Aes256? {
      assert !Duplicate(t, step.key);
    }
  }

  /** Loaded AES keys are always pairwise distinct, and no epoch ever wraps. */
  lemma {:induction false} RunsKeep(steps: seq<Step>, n: nat)
    requires n <= |steps|
    ensures Inv(After(steps, n))
  {
    if n > 0 {
      RunsKeep(steps, n - 1);
      NextKeeps(After(steps, n - 1), steps[n - 1]);
    }
  }

  /** A step leaves a slot alone or moves it to its next epoch. */
  lemma StepMoves(t: Table, step: Step, s: nat)
    requires s < SLOTS
    ensures Next(t, step)[s] == t[s] || (Next(t, step)[s].epoch == t[s].epoch + 1 && t[s].epoch < LAST_EPOCH)
           || t[s].epoch > LAST_EPOCH
  {
  }

  /** Epochs never fall, and an epoch names the content of its slot: between two moments with the same epoch nothing
      happened to the slot. */
  lemma {:induction false} EpochNamesContent(steps: seq<Step>, i: nat, j: nat, s: nat)
    requires i <= j <= |steps| && s < SLOTS
    ensures After(steps, i)[s].epoch <= After(steps, j)[s].epoch
    ensures After(steps, i)[s].epoch == After(steps, j)[s].epoch ==> After(steps, i)[s] == After(steps, j)[s]
    decreases j
  {
    hide Next;
    if i < j {
      EpochNamesContent(steps, i, j - 1, s);
      RunsKeep(steps, j - 1);
      StepMoves(After(steps, j - 1), steps[j - 1], s);
    }
  }

  predicate PutSucceeds(steps: seq<Step>, i: nat)
    requires i < |steps|
  {
    steps[i].PutStep? && Put(After(steps, i), steps[i].slot, steps[i].kind, steps[i].key, steps[i].valid, steps[i].expected).1 == Ok
  }

  /** The epoch a successful put returns. */
  function ReturnedEpoch(steps: seq<Step>, i: nat): nat
    requires i < |steps| && PutSucceeds(steps, i)
  {
    After(steps, i + 1)[steps[i].slot].epoch
  }

  /** No two puts into one slot ever return the same epoch. */
  lemma EpochsAreUnique(steps: seq<Step>, i: nat, j: nat)
    requires i < j < |steps| && PutSucceeds(steps, i) && PutSucceeds(steps, j) && steps[i].slot == steps[j].slot
    ensures ReturnedEpoch(steps, i) < ReturnedEpoch(steps, j)
  {
    EpochNamesContent(steps, i + 1, j, steps[i].slot);
    RunsKeep(steps, j);
  }

  /** A call that requires an epoch uses exactly the key whose put returned that epoch, or none. */
  lemma AtEpochUsesItsKey(steps: seq<Step>, i: nat, j: nat, kind: Kind)
    requires i < j <= |steps| && PutSucceeds(steps, i)
    ensures var (used, code) := Select(After(steps, j), steps[i].slot, kind, Some(ReturnedEpoch(steps, i)));
            && (used.Some? <==> code == Ok)
            && (used.Some? ==> used.value == steps[i].key && kind == steps[i].kind)
            && (used.Some? <==> kind == steps[i].kind && After(steps, j)[steps[i].slot].epoch == ReturnedEpoch(steps, i))
  {
    EpochNamesContent(steps, i + 1, j, steps[i].slot);
  }

  // ----- A slot is what its last change made of it

  function CodeAt(steps: seq<Step>, i: nat): Code
    requires i < |steps|
  {
    match steps[i]
    case PutStep(slot, kind, key, valid, expected) => Put(After(steps, i), slot, kind, key, valid, expected).1
    case RemoveStep(slot, expected) => Remove(After(steps, i), slot, expected).1
    case CallStep(slot, kind, required) =>
      if slot < SLOTS then Select(After(steps, i), slot, kind, required).1 else Invalid
  }

  /** The step put or removed a key of this slot, successfully. */
  predicate Changes(steps: seq<Step>, i: nat, s: nat)
    requires i < |steps|
  {
    !steps[i].CallStep? && steps[i].slot == s && CodeAt(steps, i) == Ok
  }

  function LastChange(steps: seq<Step>, n: nat, s: nat): (last: Option<nat>)
    requires n <= |steps|
    ensures last.Some? ==> last.value < n && Changes(steps, last.value, s)
    ensures forall i | (if last.Some? then last.value < i else 0 <= i) && i < n :: !Changes(steps, i, s)
  {
    if n == 0 then None else if Changes(steps, n - 1, s) then Some(n - 1) else LastChange(steps, n - 1, s)
  }

  /** How often the slot has changed. */
  function ChangeCount(steps: seq<Step>, n: nat, s: nat): nat
    requires n <= |steps|
  {
    if n == 0 then 0 else ChangeCount(steps, n - 1, s) + if Changes(steps, n - 1, s) then 1 else 0
  }

  /** A slot holds the key of its last change if that was a put, and no key after a remove or before any change. Its epoch is
      the number of its changes. */
  lemma {:induction false} SlotIsLastChange(steps: seq<Step>, n: nat, s: nat)
    requires n <= |steps| && s < SLOTS
    ensures var k, last := After(steps, n)[s], LastChange(steps, n, s);
            && k.epoch == ChangeCount(steps, n, s)
            && (k.loaded <==> last.Some? && steps[last.value].PutStep?)
            && (k.loaded ==> k.key == steps[last.value].key && k.kind == steps[last.value].kind)
            && (!k.loaded ==> k.key == [])
  {
    if n > 0 {
      SlotIsLastChange(steps, n - 1, s);
    }
  }

  /** Without or with a required epoch, a call gets a key if and only if the last change of its slot put a key of its kind, and
      the required epoch, if there is one, is the number of changes so far. The key is the one put then. */
  lemma CallGetsKey(steps: seq<Step>, n: nat, s: nat, kind: Kind, required: Option<nat>)
    requires n <= |steps| && s < SLOTS
    ensures var last, epoch := LastChange(steps, n, s), ChangeCount(steps, n, s);
            var (key, code) := Select(After(steps, n), s, kind, required);
            && (key.Some? <==> && last.Some? && steps[last.value].PutStep? && steps[last.value].kind == kind
                               && (required.None? || required.value == epoch))
            && (key.Some? ==> key.value == steps[last.value].key)
            && (code == Ok <==> key.Some?)
            && (code == KeyConflict <==> required.Some? && required.value != epoch)
            && (code == KeyMissing <==> code != KeyConflict && (last.None? || steps[last.value].RemoveStep?))
            && (code == Invalid <==> && code != KeyConflict && last.Some? && steps[last.value].PutStep?
                                     && steps[last.value].kind != kind)
  {
    SlotIsLastChange(steps, n, s);
  }

  /** Another slot holds this AES key by its last change. */
  predicate HeldElsewhere(steps: seq<Step>, n: nat, key: Bytes)
    requires n <= |steps|
  {
    exists s | 0 <= s < SLOTS ::
      var last := LastChange(steps, n, s);
      last.Some? && steps[last.value].PutStep? && steps[last.value].kind.Aes256? && steps[last.value].key == key
  }

  /** Which changes succeed, and why the others do not. */
  lemma ChangeCodes(steps: seq<Step>, i: nat)
    requires i < |steps|
    ensures steps[i].PutStep? ==>
              var q := steps[i];
              && (CodeAt(steps, i) == Invalid <==> q.slot >= 16 || (q.kind.P256? && !q.valid))
              && (CodeAt(steps, i) == Ok <==>
                    && q.slot < 16 && (q.kind.P256? ==> q.valid)
                    && q.expected == ChangeCount(steps, i, q.slot) < 0xFFFF_FFFF_FFFF_FFFF
                    && (q.kind.Aes256? ==> !HeldElsewhere(steps, i, q.key)))
              && CodeAt(steps, i) in {Ok, Invalid, KeyConflict}
    ensures steps[i].RemoveStep? ==>
              var q := steps[i];
              && (CodeAt(steps, i) == Invalid <==> q.slot >= 16)
              && (CodeAt(steps, i) == Ok <==>
                    && q.slot < 16 && q.expected == ChangeCount(steps, i, q.slot) < 0xFFFF_FFFF_FFFF_FFFF
                    && var last := LastChange(steps, i, q.slot);
                    last.Some? && steps[last.value].PutStep?)
              && (CodeAt(steps, i) == KeyMissing <==>
                    && q.slot < 16 && q.expected == ChangeCount(steps, i, q.slot) < 0xFFFF_FFFF_FFFF_FFFF
                    && var last := LastChange(steps, i, q.slot);
                    last.None? || steps[last.value].RemoveStep?)
              && CodeAt(steps, i) in {Ok, Invalid, KeyConflict, KeyMissing}
  {
    hide LastChange, ChangeCount;
    RunsKeep(steps, i);
    forall s | 0 <= s < SLOTS
      ensures var k, last := After(steps, i)[s], LastChange(steps, i, s);
              && k.epoch == ChangeCount(steps, i, s)
              && (k.loaded <==> last.Some? && steps[last.value].PutStep?)
              && (k.loaded ==> k.key == steps[last.value].key && k.kind == steps[last.value].kind)
    {
      SlotIsLastChange(steps, i, s);
    }
    if steps[i].PutStep? {
      DuplicateIsHeld(steps, i, steps[i].key);
    }
  }

  lemma DuplicateIsHeld(steps: seq<Step>, i: nat, key: Bytes)
    requires i <= |steps|
    ensures Duplicate(After(steps, i), key) <==> HeldElsewhere(steps, i, key)
  {
    hide LastChange, ChangeCount;
    forall s | 0 <= s < SLOTS
      ensures var k, last := After(steps, i)[s], LastChange(steps, i, s);
              && (k.loaded <==> last.Some? && steps[last.value].PutStep?)
              && (k.loaded ==> k.key == steps[last.value].key && k.kind == steps[last.value].kind)
    {
      SlotIsLastChange(steps, i, s);
    }
  }

  /** A slot at the last epoch can neither be replaced nor emptied any more. */
  lemma LastEpochIsFinal(t: Table, step: Step, s: nat)
    requires s < SLOTS && t[s].epoch == LAST_EPOCH
    ensures Next(t, step)[s] == t[s]
  {
  }

  // ----- The context

  datatype Report = Report(submitted: nat, completed: nat, errors: nat, epoch: nat)

  datatype Stats = Stats(calls: nat, submitted: nat, completed: nat, itemErrors: nat, callErrors: nat)

  /** What the operation itself does: throw, fail as a call, or return a status and an output for every item. */
  datatype Execution<T> = Thrown(code: Code) | Refused(code: Code) | Executed(statuses: seq<Code>, outputs: seq<T>)

  predicate Sensible<T>(e: Execution<T>, n: nat) {
    match e
    case Thrown(code) => code != Ok
    case Refused(code) => code != Ok
    case Executed(statuses, outputs) => |statuses| == |outputs| == n
  }

  function Errors(statuses: seq<Code>): (n: nat)
    ensures n <= |statuses|
    ensures n == 0 <==> forall i | 0 <= i < |statuses| :: statuses[i] == Ok
  {
    if statuses == [] then 0
    else
      var last := |statuses| - 1;
      Errors(statuses[..last]) + if statuses[last] != Ok then 1 else 0
  }

  /** The errors of a call are the items whose status is not fine. */
  lemma {:induction false} ErrorsCount(statuses: seq<Code>)
    ensures Errors(statuses) == |set i | 0 <= i < |statuses| && statuses[i] != Ok|
    decreases |statuses|
  {
    if statuses != [] {
      var last := |statuses| - 1;
      ErrorsCount(statuses[..last]);
      var before := set i | 0 <= i < |statuses[..last]| && statuses[..last][i] != Ok;
      var now := set i | 0 <= i < |statuses| && statuses[i] != Ok;
      assert now == if statuses[last] != Ok then before + {last} else before;
    }
  }

  /** Every call is counted once, and what is submitted is completed. */
  predicate StatsHold(s: Stats) {
    s.submitted == s.completed && s.itemErrors <= s.completed && s.callErrors <= s.calls
  }

  class Context {
    var slots: Table
    var stats: Stats

    ghost predicate Valid()
      reads this
    {
      Inv(slots) && StatsHold(stats)
    }

    constructor ()
      ensures Valid() && slots == Unused() && stats == Stats(0, 0, 0, 0, 0)
    {
      slots, stats := Unused(), Stats(0, 0, 0, 0, 0);
    }

    method PutKey(slot: nat, kind: Kind, key: Bytes, valid: bool, expected: nat) returns (code: Code, epoch: nat)
      requires Valid()
      modifies this`slots
      ensures Valid() && (slots, code) == Put(old(slots), slot, kind, key, valid, expected)
      ensures code == Ok ==> slot < SLOTS && epoch == slots[slot].epoch == expected + 1
    {
      NextKeeps(slots, PutStep(slot, kind, key, valid, expected));
      epoch := 0;
      if slot >= SLOTS || (kind.P256? && !valid) {
        return Invalid, 0;
      }
      if slots[slot].epoch != expected || slots[slot].epoch == LAST_EPOCH {
        return KeyConflict, 0;
      }
      if kind.Aes256? {
        for s := 0 to SLOTS
          invariant forall r | 0 <= r < s :: !(slots[r].loaded && slots[r].kind.Aes256? && slots[r].key == key)
        {
          if slots[s].loaded && slots[s].kind.Aes256? && slots[s].key == key {
            return KeyConflict, 0;
          }
        }
      }
      epoch := slots[slot].epoch + 1;
      slots := slots[slot := Slot(key, epoch, kind, true)];
      code := Ok;
    }

    method RemoveKey(slot: nat, expected: nat) returns (code: Code, epoch: nat)
      requires Valid()
      modifies this`slots
      ensures Valid() && (slots, code) == Remove(old(slots), slot, expected)
      ensures code == Ok ==> slot < SLOTS && epoch == slots[slot].epoch == expected + 1
    {
      NextKeeps(slots, RemoveStep(slot, expected));
      if slot >= SLOTS {
        return Invalid, 0;
      }
      if slots[slot].epoch != expected || slots[slot].epoch == LAST_EPOCH {
        return KeyConflict, 0;
      }
      if !slots[slot].loaded {
        return KeyMissing, 0;
      }
      epoch := slots[slot].epoch + 1;
      slots := slots[slot := Slot([], epoch, slots[slot].kind, false)];
      code := Ok;
    }

    static method CountErrors(statuses: seq<Code>) returns (errors: nat)
      ensures errors == Errors(statuses)
    {
      errors := 0;
      for i := 0 to |statuses|
        invariant errors == Errors(statuses[..i])
      {
        assert statuses[..i + 1][..i] == statuses[..i];
        if statuses[i] != Ok {
          errors := errors + 1;
        }
      }
      assert statuses[..|statuses|] == statuses;
    }

    /** One call under a key. Its report names the epoch of the slot; after an error nothing counts as submitted. A call
        that throws is not counted at all and leaves an empty report. */
    method Keyed<T>(slot: nat, kind: Kind, required: Option<nat>, n: nat, run: Bytes -> Execution<T>)
      returns (code: Code, report: Report, statuses: seq<Code>, outputs: seq<T>)
      requires Valid() && forall key :: Sensible(run(key), n)
      modifies this`stats
      ensures Valid()
      ensures code == Ok <==> slot < SLOTS && Select(slots, slot, kind, required).0.Some?
                              && run(Select(slots, slot, kind, required).0.value).Executed?
      ensures code == Ok ==> run(slots[slot].key) == Executed(statuses, outputs)
                             && report == Report(n, n, Errors(statuses), slots[slot].epoch)
      ensures code != Ok ==> report.submitted == report.completed == report.errors == 0 && statuses == [] && outputs == []
      ensures slot >= SLOTS ==> code == Invalid
      ensures slot < SLOTS ==>
                var k := slots[slot];
                code == if required.Some? && required.value != k.epoch then KeyConflict
                        else if !k.loaded then KeyMissing
                        else if k.kind != kind then Invalid
                        else if run(k.key).Executed? then Ok
                        else run(k.key).code
      ensures var key := if slot < SLOTS then Select(slots, slot, kind, required).0 else None;
              var counted := slot < SLOTS && !(key.Some? && run(key.value).Thrown?);
              && (key.Some? && !run(key.value).Executed? ==> code == run(key.value).code)
              && report.epoch == (if counted then slots[slot].epoch else 0)
              && stats == old(stats).(calls := old(stats.calls) + (if counted then 1 else 0),
                                      callErrors := old(stats.callErrors) + (if counted && code != Ok then 1 else 0),
                                      submitted := old(stats.submitted) + report.submitted,
                                      completed := old(stats.completed) + report.completed,
                                      itemErrors := old(stats.itemErrors) + report.errors)
    {
      report, statuses, outputs := Report(0, 0, 0, 0), [], [];
      if slot >= SLOTS {
        return Invalid, report, [], [];
      }
      var (key, selected) := Select(slots, slot, kind, required);
      code := selected;
      if key.Some? {
        var e := run(key.value);
        assert Sensible(run(key.value), n);
        match e {
          case Thrown(thrown) => return thrown, report, [], [];
          case Refused(refused) => code := refused;
          case Executed(s, o) => statuses, outputs := s, o;
        }
      }
      report := report.(epoch := slots[slot].epoch);
      stats := stats.(calls := stats.calls + 1);
      if code != Ok {
        stats := stats.(callErrors := stats.callErrors + 1);
        return;
      }
      var errors := CountErrors(statuses);
      report := report.(submitted := n, completed := n, errors := errors);
      stats := stats.(submitted := stats.submitted + n, completed := stats.completed + n,
                      itemErrors := stats.itemErrors + errors);
    }
  }
}
