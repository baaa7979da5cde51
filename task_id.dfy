/** Task identifiers (src/task/task_id.rs): a process-wide counter that
    starts at 1, hands out its value and moves on by one, and aborts the
    process rather than hand out an id above `u64::MAX / 2`. The counter's
    atomic access is modelled as sequential calls. */
module TaskIds {

  const U64_MAX: nat := 0xFFFF_FFFF_FFFF_FFFF

  /** The largest id `generate` returns. */
  const ID_LIMIT: nat := U64_MAX / 2

  /** `TaskId(u64)`, compared structurally. */
  datatype TaskId = TaskId(id: nat)

  /** What one call of `generate` does: return an id, or abort the process. */
  datatype Generated = Generated(taskId: TaskId) | Aborted

  /** The ids the first `k` calls of `generate` in a process return. */
  function Issued(k: nat): (ids: seq<TaskId>)
    ensures |ids| == k
    ensures forall i :: 0 <= i < k ==> ids[i] == TaskId(i + 1)
  {
    if k == 0 then [] else Issued(k - 1) + [TaskId(k)]
  }

  /** No two calls return equal ids: they strictly increase, from 1, and none
      exceeds the limit while the process lives. */
  lemma IssuedIncreasing(k: nat)
    requires k <= ID_LIMIT
    ensures forall i, j :: 0 <= i < j < k ==> Issued(k)[i].id < Issued(k)[j].id
    ensures forall i :: 0 <= i < k ==> 1 <= Issued(k)[i].id <= ID_LIMIT
  {
  }

  class IdCounter {
    /** `COUNTER`, an `AtomicU64`. */
    var counter: nat
    /** The process has aborted; nothing runs afterwards. */
    var aborted: bool
    /** Every id handed out so far, in order. */
    ghost var issued: seq<TaskId>

    ghost predicate Valid()
      reads this
    {
      && issued == Issued(|issued|)
      && |issued| <= ID_LIMIT
      && (!aborted ==> counter == |issued| + 1)
      && (aborted ==> counter == ID_LIMIT + 2)
    }

    /** The counter as the process starts: 1, nothing issued. */
    constructor ()
      ensures Valid() && !aborted && counter == 1 && issued == []
    {
      counter, aborted, issued := 1, false, [];
    }

    /** `TaskId::generate`: `fetch_add(1)` (wrapping, as on a `u64`), then
        abort if the value fetched is above `u64::MAX / 2`. */
    method Generate() returns (g: Generated)
      requires Valid() && !aborted
      modifies this
      ensures Valid()
      ensures counter == (old(counter) + 1) % (U64_MAX + 1)
      // the wrap never happens: the process aborts long before the counter nears u64::MAX
      ensures counter == old(counter) + 1 <= ID_LIMIT + 2
      ensures old(counter) <= ID_LIMIT ==>
                && g == Generated(TaskId(old(counter)))
                && !aborted && issued == old(issued) + [TaskId(old(counter))]
      ensures old(counter) > ID_LIMIT ==> g == Aborted && aborted && issued == old(issued)
      // a returned id differs from, and exceeds, every id issued before it
      ensures g.Generated? ==> forall t :: t in old(issued) ==> t.id < g.taskId.id
      // the whole history holds distinct ids, in increasing order, within the limit
      ensures forall i, j :: 0 <= i < j < |issued| ==> issued[i].id < issued[j].id
      ensures forall i :: 0 <= i < |issued| ==> 1 <= issued[i].id <= ID_LIMIT
    {
      var id := counter;
      counter := (counter + 1) % (U64_MAX + 1);
      if id > ID_LIMIT {
        aborted := true;
        g := Aborted;
      } else {
        issued := issued + [TaskId(id)];
        g := Generated(TaskId(id));
      }
      IssuedIncreasing(|issued|);
    }
  }

  /** The first id a process generates is 1. */
  method FirstIdIsOne() returns (g: Generated)
    ensures g == Generated(TaskId(1))
  {
    var c := new IdCounter();
    g := c.Generate();
  }
}
