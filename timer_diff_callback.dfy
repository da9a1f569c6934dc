/**
  TimerDiffCallback.kt: the `DiffUtil.Callback` that compares an old and a
  new list of records by position.
 */
module TimerDiffCallback {
  import opened TimerRecord
  import TimerAdapter

  datatype TimerDiffCallback = TimerDiffCallback(oldList: seq<Timer>, newList: seq<Timer>) {

    /** `getOldListSize`. */
    function GetOldListSize(): int {
      |oldList|
    }

    /** `getNewListSize`. */
    function GetNewListSize(): int {
      |newList|
    }

    /** `areItemsTheSame`: the two positions hold the same row (the same primary key). */
    predicate AreItemsTheSame(oldItemPosition: int, newItemPosition: int)
      requires 0 <= oldItemPosition < |oldList| && 0 <= newItemPosition < |newList|
    {
      oldList[oldItemPosition].id == newList[newItemPosition].id
    }

    /** `areContentsTheSame`: the two records are equal in every stored field. */
    predicate AreContentsTheSame(oldItemPosition: int, newItemPosition: int)
      requires 0 <= oldItemPosition < |oldList| && 0 <= newItemPosition < |newList|
    {
      oldList[oldItemPosition] == newList[newItemPosition]
    }
  }

  /**
    Equal contents imply the same item, and both answers agree with the
    list adapter's item callback on the records at those positions.
   */
  lemma ContentsImplyItems(cb: TimerDiffCallback, i: int, j: int)
    requires 0 <= i < |cb.oldList| && 0 <= j < |cb.newList|
    ensures cb.AreContentsTheSame(i, j) ==> cb.AreItemsTheSame(i, j)
    ensures cb.AreItemsTheSame(i, j) <==> TimerAdapter.AreItemsTheSame(cb.oldList[i], cb.newList[j])
    ensures cb.AreContentsTheSame(i, j) <==> TimerAdapter.AreContentsTheSame(cb.oldList[i], cb.newList[j])
  {
  }

  /**
    Over lists with unique ids (every query result), an old position is the
    same item as at most one new position, and the reverse.
   */
  lemma ItemsMatchAtMostOnce(cb: TimerDiffCallback, i: int, i2: int, j: int, j2: int)
    requires UniqueIds(cb.oldList) && UniqueIds(cb.newList)
    requires 0 <= i < |cb.oldList| && 0 <= i2 < |cb.oldList| && 0 <= j < |cb.newList| && 0 <= j2 < |cb.newList|
    ensures cb.AreItemsTheSame(i, j) && cb.AreItemsTheSame(i, j2) ==> j == j2
    ensures cb.AreItemsTheSame(i, j) && cb.AreItemsTheSame(i2, j) ==> i == i2
  {
    if j < j2 || j2 < j {
      assert cb.newList[j].id != cb.newList[j2].id;
    }
    if i < i2 || i2 < i {
      assert cb.oldList[i].id != cb.oldList[i2].id;
    }
  }

  /** Comparing a list with itself finds every record unchanged in place. */
  lemma SameListUnchanged(list: seq<Timer>)
    ensures var cb := TimerDiffCallback(list, list);
      && cb.GetOldListSize() == cb.GetNewListSize()
      && forall i :: 0 <= i < |list| ==> cb.AreItemsTheSame(i, i) && cb.AreContentsTheSame(i, i)
  {
  }
}
