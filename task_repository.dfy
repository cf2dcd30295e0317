/** The task repository as an in-memory table keyed by id: the queries
    (exact-title existence, lookup, counts, the CreatedAt-descending page)
    are functions of the table; add, update and remove change it in place. */
module Repository {
  import opened Common
  import opened Entities

  type Table = map<Id, TaskRecord>

  /** Every row is stored under its own id. */
  ghost predicate Keyed(t: Table)
  {
    forall k :: k in t ==> t[k].id == k
  }

  /** No two rows share a title. The store does not enforce this; only the
      services' checks do. */
  ghost predicate TitlesUnique(t: Table)
  {
    forall a, b :: a in t && b in t && a != b ==> t[a].title != t[b].title
  }

  /** The titles stored in the table. */
  function Titles(t: Table): set<string>
  {
    set k | k in t :: t[k].title
  }

  /** ExistsByTitleAsync: exact title equality. */
  function ExistsByTitle(t: Table, title: string): (b: bool)
    ensures b <==> exists k :: k in t && t[k].title == title
  {
    title in Titles(t)
  }

  /** GetByIdAsync: the row under that id, or none. */
  function Find(t: Table, id: Id): (r: Option<TaskRecord>)
    ensures r.Some? <==> id in t
    ensures r.Some? ==> r.value == t[id]
  {
    if id in t then Some(t[id]) else None
  }

  /** CountAsync. */
  function Count(t: Table): nat
  {
    |t|
  }

  /** GetTotalCountAsync: the same query as CountAsync. */
  function TotalCount(t: Table): nat
  {
    |t|
  }

  lemma CountsAgree(t: Table)
    ensures Count(t) == TotalCount(t) == |t.Keys|
  {
  }

  lemma RemoveKeyCardinality(t: Table, k: Id)
    requires k in t
    ensures |t - {k}| == |t| - 1
  {
    assert (t - {k}).Keys == t.Keys - {k};
  }

  /** Row x (stored under a) comes before row y (stored under b) in the page
      order: the later CreatedAt first; rows created at the same instant by
      ascending id. */
  predicate Earlier(x: TaskRecord, a: Id, y: TaskRecord, b: Id)
  {
    x.createdAt > y.createdAt || (x.createdAt == y.createdAt && a < b)
  }

  predicate Precedes(t: Table, a: Id, b: Id)
  {
    a in t && b in t && Earlier(t[a], a, t[b], b)
  }

  predicate IsNewest(t: Table, k: Id)
  {
    k in t && forall j :: j in t && j != k ==> Precedes(t, k, j)
  }

  lemma {:induction false} NewestExists(t: Table)
    requires |t| > 0
    ensures exists k :: IsNewest(t, k)
    decreases |t|
  {
    var x :| x in t;
    if |t| == 1 {
      RemoveKeyCardinality(t, x);
      assert (t - {x}).Keys == {};
      assert t.Keys == (t - {x}).Keys + {x};
      assert IsNewest(t, x);
    } else {
      var rest := t - {x};
      RemoveKeyCardinality(t, x);
      NewestExists(rest);
      var k :| IsNewest(rest, k);
      assert k in t && k != x;
      if Precedes(t, k, x) {
        forall j | j in t && j != k
          ensures Precedes(t, k, j)
        {
          if j != x {
            assert j in rest && Precedes(rest, k, j);
          }
        }
        assert IsNewest(t, k);
      } else {
        assert Precedes(t, x, k);
        forall j | j in t && j != x
          ensures Precedes(t, x, j)
        {
          if j != k {
            assert j in rest && Precedes(rest, k, j);
          }
        }
        assert IsNewest(t, x);
      }
    }
  }

  /** The first row of the table in page order. */
  function Newest(t: Table): (k: Id)
    requires |t| > 0
    ensures IsNewest(t, k)
  {
    NewestExists(t);
    var k :| IsNewest(t, k); k
  }

  /** The table's ids in page order: OrderByDescending(t => t.CreatedAt). */
  function OrderedIds(t: Table): (ids: seq<Id>)
    ensures |ids| == |t|
    ensures forall i :: 0 <= i < |ids| ==> ids[i] in t
    decreases |t|
  {
    if |t| == 0 then []
    else
      var k := Newest(t);
      RemoveKeyCardinality(t, k);
      [k] + OrderedIds(t - {k})
  }

  /** Each id precedes every later one: the order is strict, so no id repeats. */
  lemma {:induction false} OrderedIdsSorted(t: Table)
    ensures forall i, j :: 0 <= i < j < |OrderedIds(t)| ==> Precedes(t, OrderedIds(t)[i], OrderedIds(t)[j])
    decreases |t|
  {
    if |t| > 0 {
      var k := Newest(t);
      var rest := t - {k};
      RemoveKeyCardinality(t, k);
      OrderedIdsSorted(rest);
      var ids, tail := OrderedIds(t), OrderedIds(rest);
      assert ids == [k] + tail;
      forall i, j | 0 <= i < j < |ids|
        ensures Precedes(t, ids[i], ids[j])
      {
        assert ids[j] == tail[j - 1] && ids[j] in rest;
        if i == 0 {
          assert ids[j] != k;
        } else {
          assert Precedes(rest, tail[i - 1], tail[j - 1]);
        }
      }
    }
  }

  /** Every stored id occurs in the page order. */
  lemma {:induction false} OrderedIdsCover(t: Table)
    ensures forall k :: k in t ==> k in OrderedIds(t)
    decreases |t|
  {
    if |t| > 0 {
      var n := Newest(t);
      var rest := t - {n};
      RemoveKeyCardinality(t, n);
      OrderedIdsCover(rest);
      assert OrderedIds(t) == [n] + OrderedIds(rest);
      forall k | k in t
        ensures k in OrderedIds(t)
      {
        if k != n {
          assert k in rest;
        }
      }
    }
  }

  /** The whole table as rows in page order. */
  function Ordered(t: Table): (rows: seq<TaskRecord>)
    ensures |rows| == |t|
    ensures forall i :: 0 <= i < |rows| ==> rows[i] == t[OrderedIds(t)[i]]
  {
    var ids := OrderedIds(t);
    seq(|ids|, i requires 0 <= i < |ids| => t[ids[i]])
  }

  /** Where a page starts: Skip(skip), a negative count skipping nothing. */
  function PageStart(n: nat, skip: int): (s: nat)
    ensures s <= n
  {
    if skip <= 0 then 0 else if skip >= n then n else skip
  }

  /** How long a page is: Take(take) of what remains, a non-positive count
      taking nothing. */
  function PageLength(n: nat, skip: int, take: int): (len: nat)
    ensures PageStart(n, skip) + len <= n
  {
    var s := PageStart(n, skip);
    if take <= 0 then 0 else if take >= n - s then n - s else take
  }

  /** GetAllAsync(skip, take): order by CreatedAt descending, then skip, then take. */
  function Page(t: Table, skip: int, take: int): seq<TaskRecord>
  {
    var rows := Ordered(t);
    var s := PageStart(|rows|, skip);
    rows[s .. s + PageLength(|rows|, skip, take)]
  }

  /** The page order holds every stored row exactly once: each stored id
      occurs, at a position holding its row, and no id occurs twice. */
  lemma OrderedIsPermutation(t: Table)
    ensures forall k :: k in t ==> exists i :: 0 <= i < |t| && OrderedIds(t)[i] == k && Ordered(t)[i] == t[k]
    ensures forall i, j :: 0 <= i < j < |t| ==> OrderedIds(t)[i] != OrderedIds(t)[j]
  {
    var ids, rows := OrderedIds(t), Ordered(t);
    OrderedIdsCover(t);
    forall k | k in t
      ensures exists i :: 0 <= i < |t| && ids[i] == k && rows[i] == t[k]
    {
      var i :| 0 <= i < |ids| && ids[i] == k;
      assert rows[i] == t[k];
    }
    OrderedIdsSorted(t);
    forall i, j | 0 <= i < j < |t|
      ensures ids[i] != ids[j]
    {
      assert Precedes(t, ids[i], ids[j]);
    }
  }

  /** CreatedAt never increases along the page order. */
  lemma OrderedDescending(t: Table)
    ensures forall i, j :: 0 <= i < j < |Ordered(t)| ==> Ordered(t)[i].createdAt >= Ordered(t)[j].createdAt
  {
    OrderedIdsSorted(t);
  }

  /** A page is a run of consecutive rows of the page order: its i-th row is
      the row at position start + i, where start is `skip` clamped to 0..n;
      it is empty when take is not positive; and CreatedAt never increases
      along it. */
  lemma PageIsDescendingSlice(t: Table, skip: int, take: int)
    ensures var s := if skip <= 0 then 0 else if skip < |t| then skip else |t|;
      && s + |Page(t, skip, take)| <= |t|
      && (forall i :: 0 <= i < |Page(t, skip, take)| ==> Page(t, skip, take)[i] == Ordered(t)[s + i])
    ensures take <= 0 ==> Page(t, skip, take) == []
    ensures forall i, j :: 0 <= i < j < |Page(t, skip, take)| ==>
      Page(t, skip, take)[i].createdAt >= Page(t, skip, take)[j].createdAt
  {
    OrderedDescending(t);
  }

  /** For non-negative arguments the page has min(take, max(0, n - skip)) rows. */
  lemma PageLengthNonNegative(t: Table, skip: int, take: int)
    requires skip >= 0 && take >= 0
    ensures var rest := if |t| - skip > 0 then |t| - skip else 0;
      |Page(t, skip, take)| == if take < rest then take else rest
  {
  }

  /** Every row of a page is a stored row. */
  lemma PageRowsAreStored(t: Table, skip: int, take: int)
    ensures forall i :: 0 <= i < |Page(t, skip, take)| ==> Page(t, skip, take)[i] in t.Values
  {
    var rows := Ordered(t);
    var s := PageStart(|rows|, skip);
    var p := Page(t, skip, take);
    var ids := OrderedIds(t);
    forall i | 0 <= i < |p|
      ensures p[i] in t.Values
    {
      var k := ids[s + i];
      assert k in t;
      assert p[i] == rows[s + i] == t[k];
    }
  }

  lemma EmptyTablePage(skip: int, take: int)
    ensures Page(map[], skip, take) == []
  {
  }

  /** The repository object: a table of rows that Add, Update and Delete
      change. A failing write (an underlying store exception, rethrown
      unchanged) leaves the table as it was. */
  class TaskRepository {
    var tasks: Table

    ghost predicate Valid()
      reads this
    {
      Keyed(tasks)
    }

    constructor ()
      ensures Valid() && tasks == map[]
    {
      tasks := map[];
    }

    /** AddAsync: inserts the entity and returns the same entity. A key that
        is already stored violates the primary key and throws. */
    method Add(task: TaskItem, fails: bool) returns (added: Option<TaskItem>)
      requires Valid()
      modifies this
      ensures Valid()
      ensures added.Some? <==> !fails && task.id !in old(tasks)
      ensures added.Some? ==> added.value == task && tasks == old(tasks)[task.id := task.Snapshot()]
      ensures added.None? ==> tasks == old(tasks)
    {
      if fails || task.id in tasks {
        return None;
      }
      tasks := tasks[task.id := task.Snapshot()];
      added := Some(task);
    }

    /** UpdateAsync: replaces the row with the entity's id. Updating a key
        that is not stored affects no row and throws. */
    method Update(task: TaskItem, fails: bool) returns (ok: bool)
      requires Valid()
      modifies this
      ensures Valid()
      ensures ok <==> !fails && task.id in old(tasks)
      ensures tasks == if ok then old(tasks)[task.id := task.Snapshot()] else old(tasks)
    {
      ok := !fails && task.id in tasks;
      if ok {
        tasks := tasks[task.id := task.Snapshot()];
      }
    }

    /** DeleteAsync: removes the row with the entity's id. Removing a key
        that is not stored affects no row and throws. */
    method Delete(task: TaskItem, fails: bool) returns (ok: bool)
      requires Valid()
      modifies this
      ensures Valid()
      ensures ok <==> !fails && task.id in old(tasks)
      ensures tasks == if ok then old(tasks) - {task.id} else old(tasks)
    {
      ok := !fails && task.id in tasks;
      if ok {
        tasks := tasks - {task.id};
      }
    }
  }
}
