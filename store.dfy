/** The list transformations behind the component's handlers: cycling a task's
    status, replacing an edited task, deleting by id and appending a new task. */
module Store {
  import opened Tasks
  import opened Selection

  // ---------------------------------------------------------------------------
  // Status cycling

  /** Every task with id `id` moves one step round the status cycle; the others stay. */
  function Toggled(ts: seq<Task>, id: int): (r: seq<Task>)
    ensures |r| == |ts| && Ids(r) == Ids(ts)
    ensures forall i :: 0 <= i < |ts| && ts[i].id != id ==> r[i] == ts[i]
    ensures forall i :: 0 <= i < |ts| && ts[i].id == id ==>
              r[i].status != ts[i].status && r[i].(status := ts[i].status) == ts[i]
    ensures forall i :: 0 <= i < |ts| && ts[i].id == id ==> r[i].status == NextStatus(ts[i].status)
  {
    seq(|ts|, i requires 0 <= i < |ts| =>
      if ts[i].id == id then ts[i].(status := NextStatus(ts[i].status)) else ts[i])
  }

  /** Three clicks on the same task bring the whole list back to where it was. */
  lemma ToggleThrice(ts: seq<Task>, id: int)
    ensures Toggled(Toggled(Toggled(ts, id), id), id) == ts
  {
    var r := Toggled(Toggled(Toggled(ts, id), id), id);
    forall i | 0 <= i < |ts|
      ensures r[i] == ts[i]
    {
      StatusCycle(ts[i].status);
    }
  }

  /** Cycling the status of an id that is not in the list changes nothing. */
  lemma ToggleAbsent(ts: seq<Task>, id: int)
    requires !HasId(ts, id)
    ensures Toggled(ts, id) == ts
  {
  }

  // ---------------------------------------------------------------------------
  // Submitting the edit form

  /** Every task whose id is the edit target's becomes the draft, carrying the target's
      id and creation date; every other task stays as it is. */
  function Edited(ts: seq<Task>, target: Task, d: Draft): (r: seq<Task>)
    ensures |r| == |ts| && Ids(r) == Ids(ts)
    ensures forall i :: 0 <= i < |ts| && ts[i].id != target.id ==> r[i] == ts[i]
    ensures forall i :: 0 <= i < |ts| && ts[i].id == target.id ==>
              DraftOf(r[i]) == d && r[i].createdAt == target.createdAt
  {
    seq(|ts|, i requires 0 <= i < |ts| =>
      if ts[i].id == target.id then Apply(d, target.id, target.createdAt) else ts[i])
  }

  /** Every task of the list that has the edit target's id also has its creation date:
      the target is a current copy of the task it stands for. */
  ghost predicate CreatedAtAgrees(ts: seq<Task>, target: Task)
  {
    forall i :: 0 <= i < |ts| && ts[i].id == target.id ==> ts[i].createdAt == target.createdAt
  }

  /** A task taken from a list with unique ids agrees with that list. */
  lemma UniqueIdsAgree(ts: seq<Task>, target: Task)
    requires UniqueIds(ts) && target in ts
    ensures CreatedAtAgrees(ts, target)
  {
    var k :| 0 <= k < |ts| && ts[k] == target;
    forall i | 0 <= i < |ts| && ts[i].id == target.id
      ensures ts[i].createdAt == target.createdAt
    {
      assert i == k;
    }
  }

  /** When the edit target agrees with the list, the edit changes no task's identity or
      creation date: only the draft fields of the target change. */
  lemma EditKeepsIdentity(ts: seq<Task>, target: Task, d: Draft)
    requires CreatedAtAgrees(ts, target)
    ensures var r := Edited(ts, target, d);
      forall i :: 0 <= i < |ts| ==> r[i].id == ts[i].id && r[i].createdAt == ts[i].createdAt
  {
  }

  /** Submitting an edit whose target has been deleted meanwhile changes nothing. */
  lemma EditAbsent(ts: seq<Task>, target: Task, d: Draft)
    requires !HasId(ts, target.id)
    ensures Edited(ts, target, d) == ts
  {
  }

  // ---------------------------------------------------------------------------
  // Deleting

  function IdIsNot(id: int): Task -> bool
  {
    (t: Task) => t.id != id
  }

  /** The list without the tasks whose id is `id`. */
  function Removed(ts: seq<Task>, id: int): (r: seq<Task>)
    ensures forall i :: 0 <= i < |r| ==> r[i].id != id && r[i] in ts
    ensures forall i :: 0 <= i < |ts| && ts[i].id != id ==> ts[i] in r
  {
    Select(ts, IdIsNot(id))
  }

  /** Deleting keeps the other tasks in their order and drops exactly those with the id. */
  lemma RemoveIsExactSubsequence(ts: seq<Task>, id: int)
    ensures exists idx :: Picks(idx, Removed(ts, id), ts)
                          && (forall i :: 0 <= i < |ts| ==> (i in idx <==> ts[i].id != id))
  {
    SelectIsExactSubsequence(ts, IdIsNot(id));
    var idx :| Picks(idx, Removed(ts, id), ts) && Exact(idx, ts, IdIsNot(id));
    var p := IdIsNot(id);
    assert Exact(idx, ts, p);
    forall i | 0 <= i < |ts|
      ensures i in idx <==> ts[i].id != id
    {
      assert p(ts[i]) == (ts[i].id != id);
    }
  }

  /** Deleting an id that is not in the list changes nothing. */
  lemma RemoveAbsent(ts: seq<Task>, id: int)
    requires !HasId(ts, id)
    ensures Removed(ts, id) == ts
  {
    var p := IdIsNot(id);
    assert forall i :: 0 <= i < |ts| ==> p(ts[i]);
    SelectAllPass(ts, p);
  }

  /** Deleting the same id a second time changes nothing. */
  lemma RemoveTwice(ts: seq<Task>, id: int)
    ensures Removed(Removed(ts, id), id) == Removed(ts, id)
  {
    SelectIdempotent(ts, IdIsNot(id));
  }

  /** In a list with unique ids, deleting an id that is present shortens the list by one. */
  lemma RemovePresent(ts: seq<Task>, id: int)
    requires UniqueIds(ts) && HasId(ts, id)
    ensures |Removed(ts, id)| == |ts| - 1
  {
    var p := IdIsNot(id);
    var k :| 0 <= k < |ts| && ts[k].id == id;
    var front, back := ts[..k], ts[k + 1..];
    AllOthersPass(ts, id, k, 0, k);
    AllOthersPass(ts, id, k, k + 1, |ts|);
    assert ts == front + [ts[k]] + back;
    SelectDropsOne(front, ts[k], back, p);
  }

  /** In a list with unique ids, a slice that avoids the position of `id` keeps all its tasks. */
  lemma AllOthersPass(ts: seq<Task>, id: int, k: int, lo: int, hi: int)
    requires UniqueIds(ts) && 0 <= k < |ts| && ts[k].id == id
    requires 0 <= lo <= hi <= |ts| && (k < lo || hi <= k)
    ensures forall i :: 0 <= i < hi - lo ==> IdIsNot(id)(ts[lo..hi][i])
  {
    forall i | 0 <= i < hi - lo
      ensures IdIsNot(id)(ts[lo..hi][i])
    {
      assert ts[lo..hi][i] == ts[lo + i];
      assert lo + i != k;
      if lo + i < k {
        assert ts[lo + i].id != ts[k].id;
      } else {
        assert ts[k].id != ts[lo + i].id;
      }
    }
  }

  /** Deleting keeps ids unique. */
  lemma RemoveKeepsUnique(ts: seq<Task>, id: int)
    requires UniqueIds(ts)
    ensures UniqueIds(Removed(ts, id))
  {
    RemoveIsExactSubsequence(ts, id);
    var idx :| Picks(idx, Removed(ts, id), ts) && (forall i :: 0 <= i < |ts| ==> (i in idx <==> ts[i].id != id));
  }

  // ---------------------------------------------------------------------------
  // Creating

  /** The list after a new task built from `d` is appended with the given id and date. */
  function Created(ts: seq<Task>, d: Draft, freshId: int, today: string): (r: seq<Task>)
    ensures |r| == |ts| + 1 && r[..|ts|] == ts
    ensures DraftOf(r[|ts|]) == d && r[|ts|].id == freshId && r[|ts|].createdAt == today
  {
    ts + [Apply(d, freshId, today)]
  }

  /** A creation whose id is not yet in use keeps ids unique. */
  lemma CreateKeepsUnique(ts: seq<Task>, d: Draft, freshId: int, today: string)
    requires UniqueIds(ts) && !HasId(ts, freshId)
    ensures UniqueIds(Created(ts, d, freshId, today))
  {
    var r := Created(ts, d, freshId, today);
    forall i, j | 0 <= i < j < |r|
      ensures r[i].id != r[j].id
    {
      if j < |ts| {
        assert r[i] == ts[i] && r[j] == ts[j];
      } else {
        assert r[i] == ts[i];
      }
    }
  }

  /** Cycling statuses keeps ids unique: it touches no id. */
  lemma ToggleKeepsUnique(ts: seq<Task>, id: int)
    requires UniqueIds(ts)
    ensures UniqueIds(Toggled(ts, id))
  {
    var r := Toggled(ts, id);
    assert forall i :: 0 <= i < |ts| ==> r[i].id == Ids(r)[i] == Ids(ts)[i] == ts[i].id;
  }

  /** Cycling statuses keeps an edit target in agreement with the list. */
  lemma ToggleKeepsAgreement(ts: seq<Task>, id: int, target: Task)
    requires CreatedAtAgrees(ts, target)
    ensures CreatedAtAgrees(Toggled(ts, id), target)
  {
    var r := Toggled(ts, id);
    assert forall i :: 0 <= i < |ts| ==> r[i].id == ts[i].id && r[i].createdAt == ts[i].createdAt;
  }

  /** Deleting keeps an edit target in agreement with the list: no task is added. */
  lemma RemoveKeepsAgreement(ts: seq<Task>, id: int, target: Task)
    requires CreatedAtAgrees(ts, target)
    ensures CreatedAtAgrees(Removed(ts, id), target)
  {
    var r := Removed(ts, id);
    forall i | 0 <= i < |r| && r[i].id == target.id
      ensures r[i].createdAt == target.createdAt
    {
      var j :| 0 <= j < |ts| && ts[j] == r[i];
    }
  }

  /** Submitting an edit keeps ids unique: it touches no id. */
  lemma EditKeepsUnique(ts: seq<Task>, target: Task, d: Draft)
    requires UniqueIds(ts)
    ensures UniqueIds(Edited(ts, target, d))
  {
    var r := Edited(ts, target, d);
    assert forall i :: 0 <= i < |ts| ==> r[i].id == Ids(r)[i] == Ids(ts)[i] == ts[i].id;
  }
}
