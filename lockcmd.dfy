/** The lock and unlock commands: set the lock flag of each given catalog
    entry. A locked entry is kept on disk by sync (restored when missing)
    and never deleted by clean. */
module LockCmd {
  import opened Common
  import opened Catalog

  /** The values main passes for `lock` and `unlock`. */
  const LockValue: int := 1
  const UnlockValue: int := 0

  /** The position of the first id whose update the store refuses, or the
      number of ids. */
  function FirstRefused(ids: seq<int>, faults: set<(string, int)>): (k: nat)
    ensures k <= |ids|
    ensures forall j :: 0 <= j < k ==> ("lock", ids[j]) !in faults
    ensures k < |ids| ==> ("lock", ids[k]) in faults
    decreases |ids|
  {
    if ids == [] || ("lock", ids[0]) in faults then 0
    else
      var k := FirstRefused(ids[1..], faults);
      assert forall j :: 1 <= j <= k ==> ids[j] == ids[1..][j - 1];
      k + 1
  }

  /** The table after setting the lock of the first k ids, in order. */
  function LocksApplied(rows: seq<Row>, ids: seq<int>, lock: int, k: nat): (r: seq<Row>)
    requires k <= |ids|
    decreases k
  {
    if k == 0 then rows
    else Updated(LocksApplied(rows, ids, lock, k - 1), ids[k - 1], (row: Row) => row.(lock := lock))
  }

  /** Setting locks changes exactly the lock column of the rows whose id
      was given, and nothing else. */
  lemma {:induction false} LocksAppliedRows(rows: seq<Row>, ids: seq<int>, lock: int, k: nat)
    requires k <= |ids|
    ensures |LocksApplied(rows, ids, lock, k)| == |rows|
    ensures forall i :: 0 <= i < |rows| ==>
      LocksApplied(rows, ids, lock, k)[i] == if rows[i].id in ids[..k] then rows[i].(lock := lock) else rows[i]
    decreases k
  {
    if k > 0 {
      LocksAppliedRows(rows, ids, lock, k - 1);
      assert ids[..k] == ids[..k - 1] + [ids[k - 1]];
    }
  }

  /** Setting locks keeps the ids, so the table stays in id order. */
  lemma {:induction false} LocksKeepIds(rows: seq<Row>, ids: seq<int>, lock: int, k: nat)
    requires k <= |ids|
    ensures |LocksApplied(rows, ids, lock, k)| == |rows|
    ensures forall i :: 0 <= i < |rows| ==> LocksApplied(rows, ids, lock, k)[i].id == rows[i].id
    decreases k
  {
    if k > 0 {
      LocksKeepIds(rows, ids, lock, k - 1);
    }
  }

  /** Lock: UpdateLock for each id in the order given. The first refused
      update ends the command with its error; the updates before it stay. */
  method Lock(cat: Catalog, ids: seq<int>, lockValue: int) returns (o: Outcome)
    modifies cat
    requires cat.Valid()
    ensures cat.Valid()
    ensures cat.ivs == old(cat.ivs) && cat.comments == old(cat.comments) && cat.requests == old(cat.requests)
    ensures o.Pass? <==> FirstRefused(ids, cat.faults) == |ids|
    ensures o.Fail? ==> o.error == StoreFault("lock")
    ensures cat.entries == LocksApplied(old(cat.entries), ids, lockValue, FirstRefused(ids, cat.faults))
  {
    var i := 0;
    while i < |ids|
      invariant 0 <= i <= FirstRefused(ids, cat.faults)
      invariant cat.Valid()
      invariant cat.ivs == old(cat.ivs) && cat.comments == old(cat.comments) && cat.requests == old(cat.requests)
      invariant cat.entries == LocksApplied(old(cat.entries), ids, lockValue, i)
    {
      o := cat.UpdateLock(ids[i], lockValue);
      if o.Fail? {
        return;
      }
      i := i + 1;
    }
    o := Pass;
  }
}
