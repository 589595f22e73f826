/** The task manager: a fixed table of `MAX_TASKS` slots, filled first-fit
    by `task_add` and emptied by each worker once it has run its course.
    Creating a FreeRTOS task is modelled as writing an abstract handle. */
module TaskManager {
  import opened Common

  const MAX_TASKS: nat := 32
  /** A worker releases its slot on the iteration where its counter passes
      10, i.e. after this many iterations. */
  const WORKER_ITERATIONS: nat := 11

  datatype TaskType = Repeating | OneTime | Pomodoro

  /** `TaskHandle_t`: `Null`, or some task created by the scheduler. */
  datatype Handle = Null | Task(id: nat)

  /** `task_handle_t`: one slot of the table. */
  datatype Slot = Slot(kind: TaskType, handle: Handle, enabled: bool, dead: bool)
  {
    predicate Free() { handle == Null }
  }

  /** The `tasks` array. */
  type Table = seq<Slot>

  predicate ValidTable(t: Table) { |t| == MAX_TASKS }

  /** Zero-initialised static storage: the first enumerator, a null
      handle, both flags false. */
  function StaticTable(): (t: Table)
    ensures ValidTable(t)
    ensures forall i :: 0 <= i < |t| ==> t[i].Free() && t[i].kind == Repeating && !t[i].enabled && !t[i].dead
  {
    seq(MAX_TASKS, _ => Slot(Repeating, Null, false, false))
  }

  /** `i` is the lowest index of a free slot. */
  predicate IsFirstFree(t: Table, i: nat) {
    i < |t| && t[i].Free() && forall j :: 0 <= j < i ==> !t[j].Free()
  }

  predicate IsFull(t: Table) {
    forall j :: 0 <= j < |t| ==> !t[j].Free()
  }

  /** Number of slots holding a handle. */
  function Occupied(t: Table): (n: nat)
    ensures n <= |t|
  {
    if t == [] then 0 else (if t[0].Free() then 0 else 1) + Occupied(t[1..])
  }

  /** `task_init`: clears every handle and touches nothing else. */
  method TaskInit(t: Table) returns (r: Table, err: EspErr)
    requires ValidTable(t)
    ensures ValidTable(r) && err == EspOk
    ensures forall i :: 0 <= i < MAX_TASKS ==> r[i].Free()
    ensures forall i :: 0 <= i < MAX_TASKS ==>
              r[i].kind == t[i].kind && r[i].enabled == t[i].enabled && r[i].dead == t[i].dead
  {
    r := t;
    var i := 0;
    while i < MAX_TASKS
      invariant 0 <= i <= MAX_TASKS && |r| == MAX_TASKS
      invariant forall j :: 0 <= j < i ==> r[j] == t[j].(handle := Null)
      invariant forall j :: i <= j < MAX_TASKS ==> r[j] == t[j]
    {
      r := r[i := r[i].(handle := Null)];
      i := i + 1;
    }
    err := EspOk;
  }

  /** Linear scan for the lowest free slot at or after `from`. */
  function FirstFreeFrom(t: Table, from: nat): (r: Option<nat>)
    requires from <= |t|
    ensures r.Some? ==> from <= r.value < |t| && t[r.value].Free()
    ensures r.Some? ==> forall j :: from <= j < r.value ==> !t[j].Free()
    ensures r.None? ==> forall j :: from <= j < |t| ==> !t[j].Free()
    decreases |t| - from
  {
    if from == |t| then None
    else if t[from].Free() then Some(from)
    else FirstFreeFrom(t, from + 1)
  }

  /** The slot `task_add` claims: the lowest free one, if any. */
  function FirstFree(t: Table): (r: Option<nat>)
    ensures r.Some? <==> !IsFull(t)
    ensures r.Some? ==> IsFirstFree(t, r.value)
  {
    FirstFreeFrom(t, 0)
  }

  /** Store the handle returned by task creation into slot `i`. */
  function Claim(t: Table, i: nat, created: Handle): (r: Table)
    requires i < |t|
    ensures |r| == |t| && r[i].handle == created
    ensures r[i].kind == t[i].kind && r[i].enabled == t[i].enabled && r[i].dead == t[i].dead
    ensures forall j :: 0 <= j < |t| && j != i ==> r[j] == t[j]
  {
    t[i := t[i].(handle := created)]
  }

  /** `task_add`, functionally: the first free slot receives the handle
      written by `xTaskCreate`; a full table yields `ESP_FAIL` and stays as
      it was.  `created` is `Null` when task creation itself fails, in
      which case the slot stays free but the call still reports success. */
  function Add(t: Table, kind: TaskType, created: Handle): (r: (Table, EspErr))
    requires ValidTable(t)
    ensures ValidTable(r.0)
    ensures r.1 == EspFail <==> IsFull(t)
    ensures r.1 == EspFail ==> r.0 == t
  {
    match FirstFree(t)
    case None => (t, EspFail)
    case Some(i) => (Claim(t, i, created), EspOk)
  }

  /** On success exactly the first free slot changes: it now holds the new
      handle, its other fields and every other slot are untouched, and one
      more slot is occupied, still at most `MAX_TASKS`. */
  lemma AddClaimsFirstFree(t: Table, kind: TaskType, created: Handle)
    requires ValidTable(t) && !IsFull(t) && created != Null
    ensures var i := FirstFree(t).value; var r := Add(t, kind, created);
      && IsFirstFree(t, i)
      && r.1 == EspOk
      && r.0[i].handle == created && !r.0[i].Free()
      && r.0[i].kind == t[i].kind && r.0[i].enabled == t[i].enabled && r.0[i].dead == t[i].dead
      && (forall j :: 0 <= j < MAX_TASKS && j != i ==> r.0[j] == t[j])
      && Occupied(r.0) == Occupied(t) + 1 <= MAX_TASKS
  {
    var i := FirstFree(t).value;
    OccupiedSet(t, i, created);
  }

  /** The task type argument influences neither the chosen slot nor the
      result. */
  lemma AddIgnoresType(t: Table, k1: TaskType, k2: TaskType, created: Handle)
    requires ValidTable(t)
    ensures Add(t, k1, created) == Add(t, k2, created)
  {
  }

  /** Occupying a free slot adds one to the count. */
  lemma {:induction false} OccupiedSet(t: Table, i: nat, created: Handle)
    requires i < |t| && t[i].Free() && created != Null
    ensures Occupied(Claim(t, i, created)) == Occupied(t) + 1
  {
    var t' := Claim(t, i, created);
    if i == 0 {
      assert t'[1..] == t[1..];
    } else {
      assert t'[1..] == Claim(t[1..], i - 1, created);
      OccupiedSet(t[1..], i - 1, created);
    }
  }

  /** Freeing an occupied slot takes one from the count. */
  lemma {:induction false} OccupiedRelease(t: Table, i: nat)
    requires i < |t| && !t[i].Free()
    ensures Occupied(Release(t, i)) == Occupied(t) - 1
  {
    var t' := Release(t, i);
    if i == 0 {
      assert t'[1..] == t[1..];
    } else {
      assert t'[1..] == Release(t[1..], i - 1);
      OccupiedRelease(t[1..], i - 1);
    }
  }

  /** `task_add` as written: scan up from 0, claim the first free slot and
      stop; when the scan runs off the end, fail.  `i` is the C loop
      variable after the loop. */
  method TaskAdd(t: Table, kind: TaskType, created: Handle) returns (r: Table, err: EspErr, i: nat)
    requires ValidTable(t)
    ensures (r, err) == Add(t, kind, created)
    ensures i <= MAX_TASKS
    ensures i == MAX_TASKS <==> err == EspFail
    ensures i < MAX_TASKS ==> IsFirstFree(t, i) && r == Claim(t, i, created)
  {
    r := t;
    i := 0;
    while i < MAX_TASKS
      invariant 0 <= i <= MAX_TASKS
      invariant r == t
      invariant forall j :: 0 <= j < i ==> !t[j].Free()
    {
      if r[i].Free() {
        r := Claim(r, i, created);
        break;
      }
      i := i + 1;
    }
    if i == MAX_TASKS {
      err := EspFail;
      return;
    }
    err := EspOk;
  }

  /** A worker's final act: set its slot's handle back to `Null`. */
  function Release(t: Table, pos: nat): (r: Table)
    requires pos < |t|
    ensures |r| == |t| && r[pos].Free()
    ensures r[pos].kind == t[pos].kind && r[pos].enabled == t[pos].enabled && r[pos].dead == t[pos].dead
    ensures forall j :: 0 <= j < |t| && j != pos ==> r[j] == t[j]
  {
    t[pos := t[pos].(handle := Null)]
  }

  /** `sample_task` for the worker in slot `pos`: it counts its
      iterations and frees its slot on the one where the count passes 10.
      Returns the table and how many iterations ran. */
  method SampleTask(t: Table, pos: nat) returns (r: Table, iterations: nat)
    requires ValidTable(t) && pos < MAX_TASKS
    ensures iterations == WORKER_ITERATIONS
    ensures r == Release(t, pos)
  {
    r := t;
    var i := 0;
    var deleted := false;
    while !deleted
      invariant 0 <= i <= WORKER_ITERATIONS
      invariant deleted <==> i > 10
      invariant !deleted ==> r == t
      invariant deleted ==> r == Release(t, pos)
      decreases WORKER_ITERATIONS - i
    {
      i := i + 1;
      if i > 10 {
        r := Release(r, pos);
        deleted := true;
      }
    }
    iterations := i;
  }

  /** After a worker frees its slot, the next `task_add` succeeds and
      claims that slot or a lower one; it claims exactly that slot when
      every lower slot is still occupied. */
  lemma ReleasedSlotIsEligible(t: Table, pos: nat, kind: TaskType, created: Handle)
    requires ValidTable(t) && pos < MAX_TASKS
    ensures var t' := Release(t, pos);
      && FirstFree(t').Some? && FirstFree(t').value <= pos
      && Add(t', kind, created).1 == EspOk
      && ((forall j :: 0 <= j < pos ==> !t[j].Free()) ==> FirstFree(t').value == pos)
  {
    var t' := Release(t, pos);
    assert !IsFull(t') by { assert t'[pos].Free(); }
  }

  /** A worker undoes exactly what the `task_add` that started it did. */
  lemma AddThenReleaseRestores(t: Table, kind: TaskType, created: Handle)
    requires ValidTable(t) && !IsFull(t)
    ensures Release(Add(t, kind, created).0, FirstFree(t).value) == t
  {
    var i := FirstFree(t).value;
    var r := Release(Add(t, kind, created).0, i);
    assert forall j :: 0 <= j < |t| ==> r[j] == t[j];
  }

  /** `task_init` frees every slot, so `task_add` then fills slots 0, 1,
      2, ... in order. */
  lemma FreshTableFillsInOrder(t: Table, n: nat)
    requires ValidTable(t) && n < MAX_TASKS
    requires forall j :: 0 <= j < MAX_TASKS ==> (t[j].Free() <==> j >= n)
    ensures FirstFree(t) == Some(n)
    ensures Occupied(t) == n
  {
    assert t[n].Free();
    OccupiedPrefix(t, n);
  }

  /** At boot the zero-initialised table is empty, so the first
      `task_add` claims slot 0. */
  lemma BootTableStartsEmpty()
    ensures FirstFree(StaticTable()) == Some(0)
    ensures Occupied(StaticTable()) == 0
  {
    FreshTableFillsInOrder(StaticTable(), 0);
  }

  lemma {:induction false} OccupiedPrefix(t: Table, n: nat)
    requires n <= |t|
    requires forall j :: 0 <= j < |t| ==> (t[j].Free() <==> j >= n)
    ensures Occupied(t) == n
  {
    if t != [] {
      if n > 0 {
        OccupiedPrefix(t[1..], n - 1);
      } else {
        OccupiedPrefix(t[1..], 0);
      }
    }
  }
}
