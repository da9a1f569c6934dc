/**
  The `timers` table behind TimerDao.kt: rows keyed by the primary key `id`,
  with Room's insert-or-replace, update, delete and the `ORDER BY id DESC`
  query. The id is declared `autoGenerate`, so Room binds an id of 0 as NULL
  and SQLite's AUTOINCREMENT picks one more than the largest id ever used
  (kept here as `sequence`, SQLite's `sqlite_sequence` entry).
 */
module TimerDao {
  import opened KotlinStd
  import opened TimerRecord

  /** `@Update`: the row with the record's id is replaced; a record with no row changes nothing. */
  function Updated(rows: map<Int64, Timer>, t: Timer): (r: map<Int64, Timer>)
    ensures r.Keys == rows.Keys
    ensures forall k :: k in r ==> r[k] == if k == t.id then t else rows[k]
  {
    if t.id in rows then rows[t.id := t] else rows
  }

  /** A sequence of `@Update`s, applied in order. */
  function UpdatedAll(rows: map<Int64, Timer>, ts: seq<Timer>): (r: map<Int64, Timer>)
    ensures r.Keys == rows.Keys
    decreases |ts|
  {
    if ts == [] then rows else Updated(UpdatedAll(rows, ts[..|ts| - 1]), ts[|ts| - 1])
  }

  /** One more `@Update` after a sequence of them. */
  lemma UpdatedAllSnoc(rows: map<Int64, Timer>, ts: seq<Timer>, t: Timer)
    ensures UpdatedAll(rows, ts + [t]) == Updated(UpdatedAll(rows, ts), t)
  {
    assert (ts + [t])[..|ts|] == ts;
  }

  /** A second update of the same row overrides the first. */
  lemma UpdatedTwice(rows: map<Int64, Timer>, a: Timer, b: Timer)
    requires a.id == b.id
    ensures Updated(Updated(rows, a), b) == Updated(rows, b)
  {
  }

  /** `r` is what `SELECT * FROM timers ORDER BY id DESC` returns for `rows`. */
  ghost predicate IsQueryResult(rows: map<Int64, Timer>, r: seq<Timer>) {
    && DescendingIds(r)
    && forall t :: t in r <==> t.id in rows && rows[t.id] == t
  }

  /** A non-empty listing contains its head. */
  lemma HeadMember(s: seq<Timer>)
    ensures s != [] ==> s[0] in s
  {
  }

  /** The tail of an id-descending listing is the listing without its head. */
  lemma TailMembers(a: seq<Timer>)
    requires DescendingIds(a) && a != []
    ensures forall t :: t in a[1..] <==> t in a && t != a[0]
  {
    forall t | t in a[1..] ensures t != a[0] {
      var k :| 0 <= k < |a[1..]| && a[1..][k] == t;
      assert a[0].id > a[k + 1].id;
    }
  }

  /** The head of an id-descending listing holds its largest id. */
  lemma HeadIsLargest(a: seq<Timer>, t: Timer)
    requires DescendingIds(a) && t in a
    ensures a[0].id >= t.id
  {
    var k :| 0 <= k < |a| && a[k] == t;
    if k > 0 {
      assert a[0].id > a[k].id;
    }
  }

  /** Two id-descending listings of the same records are the same listing. */
  lemma {:induction false} DescendingListingUnique(a: seq<Timer>, b: seq<Timer>)
    requires DescendingIds(a) && DescendingIds(b)
    requires forall t :: t in a <==> t in b
    ensures a == b
    decreases |a|
  {
    if a != [] {
      assert a[0] in b;
      assert b != [];
      assert b[0] in b;
      HeadIsLargest(a, b[0]);
      HeadIsLargest(b, a[0]);
      assert a[0] == b[0];
      TailMembers(a);
      TailMembers(b);
      DescendingListingUnique(a[1..], b[1..]);
      assert a == [a[0]] + a[1..] && b == [b[0]] + b[1..];
    } else {
      HeadMember(b);
    }
  }

  /** The query result is determined by the table: ordering by a primary key leaves no ties. */
  lemma QueryResultUnique(rows: map<Int64, Timer>, r1: seq<Timer>, r2: seq<Timer>)
    requires IsQueryResult(rows, r1) && IsQueryResult(rows, r2)
    ensures r1 == r2
  {
    DescendingListingUnique(r1, r2);
  }

  /** Looking an id up in the query result finds exactly the row stored under it. */
  lemma QueryResultFind(rows: map<Int64, Timer>, r: seq<Timer>, id: Int64)
    requires forall k :: k in rows ==> rows[k].id == k
    requires IsQueryResult(rows, r)
    ensures FindById(r, id) == if id in rows then Some(rows[id]) else None
  {
    if id in rows {
      assert rows[id] in r;
    }
  }

  /** The rows whose ids are not in `ids`. */
  function Without(rows: map<Int64, Timer>, ids: set<Int64>): map<Int64, Timer> {
    map k | k in rows && k !in ids :: rows[k]
  }

  /** Appending a row with an id below every listed id extends a query result. */
  lemma QueryStep(done: map<Int64, Timer>, r: seq<Timer>, t: Timer)
    requires IsQueryResult(done, r)
    requires t.id !in done
    requires forall i :: 0 <= i < |r| ==> r[i].id > t.id
    ensures IsQueryResult(done[t.id := t], r + [t])
  {
    var r' := r + [t];
    var d' := done[t.id := t];
    forall u
      ensures u in r' <==> u.id in d' && d'[u.id] == u
    {
      if u in r {
        assert u.id in done;
      }
    }
  }

  /**
    Midway through the query: the ids in `left` are still to be listed, and
    `r` lists the other rows, each id above every id still to come.
   */
  ghost predicate QueryProgress(rows: map<Int64, Timer>, left: set<Int64>, r: seq<Timer>) {
    && (forall k :: k in rows ==> rows[k].id == k)
    && left <= rows.Keys
    && IsQueryResult(Without(rows, left), r)
    && (forall i, k :: 0 <= i < |r| && k in left ==> r[i].id > k)
    && |r| + |left| == |rows|
  }

  /** Listing the largest id still to come keeps `QueryProgress`. */
  lemma QueryProgressStep(rows: map<Int64, Timer>, left: set<Int64>, r: seq<Timer>, k: Int64)
    requires QueryProgress(rows, left, r)
    requires k in left && forall j :: j in left ==> j <= k
    ensures QueryProgress(rows, left - {k}, r + [rows[k]])
  {
    QueryStep(Without(rows, left), r, rows[k]);
    assert Without(rows, left - {k}) == Without(rows, left)[k := rows[k]];
    var r' := r + [rows[k]];
    forall i, j | 0 <= i < |r'| && j in left - {k} ensures r'[i].id > j {
      if i == |r| {
        assert r'[i] == rows[k];
      } else {
        assert r'[i] == r[i];
      }
    }
  }

  /** The largest id of a non-empty set of ids. */
  ghost function MaxId(s: set<Int64>): (k: Int64)
    requires s != {}
    ensures k in s && forall j :: j in s ==> j <= k
    decreases |s|
  {
    var x :| x in s;
    var rest := s - {x};
    assert forall j :: j in s ==> j == x || j in rest;
    if rest == {} then x
    else
      var k := MaxId(rest);
      if x > k then x else k
  }

  class TimerTable {
    /** The rows, keyed by primary key. */
    var rows: map<Int64, Timer>
    /** The largest id ever stored (SQLite's AUTOINCREMENT high-water mark). */
    var sequence: Int64

    ghost predicate Valid()
      reads this
    {
      forall k :: k in rows ==> rows[k].id == k && k <= sequence
    }

    /** A freshly created, empty table. */
    constructor ()
      ensures Valid() && rows == map[] && sequence == 0
    {
      rows := map[];
      sequence := 0;
    }

    /**
      `insertTimer` with `OnConflictStrategy.REPLACE`: a non-zero id replaces
      any row with that id; id 0 receives a fresh id one past every id ever
      used. The new row id is returned; when no id is left (SQLITE_FULL) the
      insert throws, which is `None` here.
     */
    method InsertTimer(t: Timer) returns (rowId: Option<Int64>)
      requires Valid()
      modifies this
      ensures Valid()
      ensures t.id != 0 ==>
        && rowId == Some(t.id)
        && rows == old(rows)[t.id := t]
        && sequence == if t.id > old(sequence) then t.id else old(sequence)
      ensures t.id == 0 && old(sequence) < LONG_MAX ==>
        && rowId == Some(old(sequence) + 1)
        && old(sequence) + 1 !in old(rows)
        && rows == old(rows)[old(sequence) + 1 := t.(id := old(sequence) + 1)]
        && sequence == old(sequence) + 1
      ensures t.id == 0 && old(sequence) == LONG_MAX ==>
        rowId == None && rows == old(rows) && sequence == old(sequence)
    {
      if t.id != 0 {
        rows := rows[t.id := t];
        if t.id > sequence {
          sequence := t.id;
        }
        rowId := Some(t.id);
      } else if sequence < LONG_MAX {
        var id: Int64 := sequence + 1;
        rows := rows[id := t.(id := id)];
        sequence := id;
        rowId := Some(id);
      } else {
        rowId := None;
      }
    }

    /** `getAllTimers`: every row, ordered by id, largest first. */
    method GetAllTimers() returns (r: seq<Timer>)
      requires Valid()
      ensures IsQueryResult(rows, r)
      ensures |r| == |rows|
    {
      r := [];
      var left := rows.Keys;
      assert Without(rows, left) == map[];
      while left != {}
        invariant QueryProgress(rows, left, r)
        decreases left
      {
        ghost var top := MaxId(left);
        var k :| k in left && forall j :: j in left ==> j <= k;
        QueryProgressStep(rows, left, r, k);
        r := r + [rows[k]];
        left := left - {k};
      }
      assert Without(rows, left) == rows;
    }

    /** `updateTimer`: replaces the row with the record's id, if there is one; nothing else changes. */
    method UpdateTimer(t: Timer)
      requires Valid()
      modifies this
      ensures Valid()
      ensures rows == Updated(old(rows), t) && sequence == old(sequence)
    {
      if t.id in rows {
        rows := rows[t.id := t];
      }
    }

    /** `deleteTimer`: removes the row with the record's id, and no other. */
    method DeleteTimer(t: Timer)
      requires Valid()
      modifies this
      ensures Valid()
      ensures rows == old(rows) - {t.id} && sequence == old(sequence)
    {
      DeleteTimerById(t.id);
    }

    /** `deleteTimerById`: `DELETE FROM timers WHERE id = :timerId`. */
    method DeleteTimerById(timerId: Int64)
      requires Valid()
      modifies this
      ensures Valid()
      ensures rows == old(rows) - {timerId} && sequence == old(sequence)
    {
      rows := rows - {timerId};
    }
  }
}
