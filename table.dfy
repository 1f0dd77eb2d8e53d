/** The process table widget: an ordered list of rows, each identified by
    the decimal pid of its process and holding the values of that process's
    record, and the reconciliation that brings it up to date with a new
    sample without rebuilding it. */
module Table {
  import opened Text
  import opened Sampling

  /** The row id of a record: `str(pid)`. */
  function Iid(p: ProcessRecord): string {
    DecimalString(p.pid)
  }

  predicate DistinctRows(rows: seq<string>) {
    forall i, j :: 0 <= i < j < |rows| ==> rows[i] != rows[j]
  }

  /** The row ids of a list of records. */
  function IdSet(procs: seq<ProcessRecord>): (ids: set<string>)
    ensures forall i :: 0 <= i < |procs| ==> Iid(procs[i]) in ids
  {
    if procs == [] then {} else IdSet(procs[..|procs| - 1]) + {Iid(procs[|procs| - 1])}
  }

  lemma {:induction false} IdSetMembers(procs: seq<ProcessRecord>, id: string)
    ensures id in IdSet(procs) <==> exists i :: 0 <= i < |procs| && Iid(procs[i]) == id
  {
    if procs != [] {
      var init := procs[..|procs| - 1];
      IdSetMembers(init, id);
      if id in IdSet(init) {
        var i :| 0 <= i < |init| && Iid(init[i]) == id;
        assert Iid(procs[i]) == id;
      }
    }
  }

  /** Distinct pids give distinct row ids. */
  lemma IidInjective(procs: seq<ProcessRecord>)
    requires DistinctRecordPids(procs)
    ensures forall i, j :: 0 <= i < j < |procs| ==> Iid(procs[i]) != Iid(procs[j])
  {
    forall i, j | 0 <= i < j < |procs| ensures Iid(procs[i]) != Iid(procs[j]) {
      if Iid(procs[i]) == Iid(procs[j]) {
        DecimalInjective(procs[i].pid, procs[j].pid);
      }
    }
  }

  /** The rows not in `gone`, in their order. */
  function Without(rows: seq<string>, gone: set<string>): (r: seq<string>)
    ensures |r| <= |rows|
  {
    if rows == [] then []
    else
      var prev := Without(rows[..|rows| - 1], gone);
      if rows[|rows| - 1] in gone then prev else prev + [rows[|rows| - 1]]
  }

  lemma {:induction false} WithoutMembers(rows: seq<string>, gone: set<string>)
    ensures forall x :: x in Without(rows, gone) <==> x in rows && x !in gone
  {
    if rows != [] {
      WithoutMembers(rows[..|rows| - 1], gone);
      assert rows == rows[..|rows| - 1] + [rows[|rows| - 1]];
    }
  }

  /** The rows in `ids`, in their order. */
  function Kept(rows: seq<string>, ids: set<string>): (r: seq<string>)
    ensures forall x :: x in r <==> x in rows && x in ids
  {
    if rows == [] then []
    else
      var prev := Kept(rows[..|rows| - 1], ids);
      var last := rows[|rows| - 1];
      assert rows == rows[..|rows| - 1] + [last];
      if last in ids then prev + [last] else prev
  }

  /** The ids of the records whose id is not in `cur`, in record order. */
  function Added(cur: set<string>, procs: seq<ProcessRecord>): (r: seq<string>)
    ensures forall x :: x in r ==> x !in cur && x in IdSet(procs)
  {
    if procs == [] then []
    else
      var prev := Added(cur, procs[..|procs| - 1]);
      var id := Iid(procs[|procs| - 1]);
      if id in cur then prev else prev + [id]
  }

  /** With distinct pids, each record's id is new to the records before it. */
  lemma FreshId(procs: seq<ProcessRecord>, i: nat)
    requires DistinctRecordPids(procs) && i < |procs|
    ensures forall k :: 0 <= k < i ==> Iid(procs[k]) != Iid(procs[i])
    ensures Iid(procs[i]) !in IdSet(procs[..i])
  {
    forall k | 0 <= k < i ensures Iid(procs[k]) != Iid(procs[i]) {
      if Iid(procs[k]) == Iid(procs[i]) {
        DecimalInjective(procs[k].pid, procs[i].pid);
      }
    }
    IdSetMembers(procs[..i], Iid(procs[i]));
    assert forall k :: 0 <= k < i ==> procs[..i][k] == procs[k];
  }

  lemma IdSetStep(procs: seq<ProcessRecord>, i: nat)
    requires i < |procs|
    ensures IdSet(procs[..i + 1]) == IdSet(procs[..i]) + {Iid(procs[i])}
  {
    assert procs[..i + 1][..i] == procs[..i];
  }

  /** An id none of the records carries is a row after the additions
      exactly when it was one before them. */
  lemma RowSetAfterAdded(rows: seq<string>, cur: set<string>, procs: seq<ProcessRecord>, id: string)
    requires cur == RowSet(rows) && id !in IdSet(procs)
    ensures id in RowSet(rows + Added(cur, procs)) <==> id in cur
  {
    var grown := rows + Added(cur, procs);
    if id in cur {
      var k :| 0 <= k < |rows| && rows[k] == id;
      assert grown[k] == id;
    }
  }

  /** The first `n` records are the values of their rows. */
  predicate Stored(values: map<string, ProcessRecord>, procs: seq<ProcessRecord>, n: nat)
    requires n <= |procs|
  {
    forall k :: 0 <= k < n ==> Iid(procs[k]) in values && values[Iid(procs[k])] == procs[k]
  }

  /** Writing the next record's row keeps the earlier ones when its id is new. */
  lemma StoredStep(values: map<string, ProcessRecord>, procs: seq<ProcessRecord>, i: nat)
    requires i < |procs| && Stored(values, procs, i)
    requires forall k :: 0 <= k < i ==> Iid(procs[k]) != Iid(procs[i])
    ensures Stored(values[Iid(procs[i]) := procs[i]], procs, i + 1)
  {
  }

  /** One more record adds its id exactly when the table lacks it. */
  lemma AddedStep(cur: set<string>, procs: seq<ProcessRecord>, i: nat)
    requires i < |procs|
    ensures Added(cur, procs[..i + 1]) ==
      Added(cur, procs[..i]) + (if Iid(procs[i]) in cur then [] else [Iid(procs[i])])
  {
    assert procs[..i + 1][..i] == procs[..i];
  }

  function RowSet(rows: seq<string>): set<string> {
    set x | x in rows
  }

  /** The rows after reconciliation: the surviving rows where they were,
      then the new ids in record order. */
  function Reconcile(rows: seq<string>, procs: seq<ProcessRecord>): (r: seq<string>)
    ensures forall x :: x in r <==> x in IdSet(procs)
  {
    KeptAddedCover(rows, procs);
    Kept(rows, IdSet(procs)) + Added(RowSet(rows), procs)
  }

  /** Between them the kept rows and the appended ids are the record ids. */
  lemma KeptAddedCover(rows: seq<string>, procs: seq<ProcessRecord>)
    ensures forall x :: x in Kept(rows, IdSet(procs)) + Added(RowSet(rows), procs) <==> x in IdSet(procs)
  {
    forall x | x in IdSet(procs) && x !in rows
      ensures x in Added(RowSet(rows), procs)
    {
      AddedComplete(RowSet(rows), procs, x);
    }
  }

  // ----- properties of reconciliation -----

  lemma {:induction false} WithoutDistinct(rows: seq<string>, gone: set<string>)
    requires DistinctRows(rows)
    ensures DistinctRows(Without(rows, gone))
  {
    if rows != [] {
      WithoutDistinct(rows[..|rows| - 1], gone);
      WithoutMembers(rows[..|rows| - 1], gone);
      var init := rows[..|rows| - 1];
      assert forall k :: 0 <= k < |init| ==> init[k] != rows[|rows| - 1];
    }
  }

  lemma {:induction false} KeptDistinct(rows: seq<string>, ids: set<string>)
    requires DistinctRows(rows)
    ensures DistinctRows(Kept(rows, ids))
  {
    if rows != [] {
      KeptDistinct(rows[..|rows| - 1], ids);
      var init := rows[..|rows| - 1];
      assert forall k :: 0 <= k < |init| ==> init[k] != rows[|rows| - 1];
    }
  }

  lemma {:induction false} AddedDistinct(cur: set<string>, procs: seq<ProcessRecord>)
    requires DistinctRecordPids(procs)
    ensures DistinctRows(Added(cur, procs))
  {
    if procs != [] {
      var init := procs[..|procs| - 1];
      AddedDistinct(cur, init);
      IidInjective(procs);
      IdSetMembers(init, Iid(procs[|procs| - 1]));
      assert forall k :: 0 <= k < |init| ==> init[k] == procs[k];
    }
  }

  lemma {:induction false} AddedComplete(cur: set<string>, procs: seq<ProcessRecord>, id: string)
    requires id in IdSet(procs) && id !in cur
    ensures id in Added(cur, procs)
  {
    var init := procs[..|procs| - 1];
    if id != Iid(procs[|procs| - 1]) {
      AddedComplete(cur, init, id);
    }
  }

  /** After reconciliation the row ids are exactly the ids of the records,
      each once. */
  lemma ReconcileRows(rows: seq<string>, procs: seq<ProcessRecord>)
    requires DistinctRows(rows) && DistinctRecordPids(procs)
    ensures DistinctRows(Reconcile(rows, procs))
    ensures forall x :: x in Reconcile(rows, procs) <==> x in IdSet(procs)
  {
    var kept, added := Kept(rows, IdSet(procs)), Added(RowSet(rows), procs);
    KeptDistinct(rows, IdSet(procs));
    AddedDistinct(RowSet(rows), procs);
    forall i, j | 0 <= i < |kept| && 0 <= j < |added| ensures kept[i] != added[j] {
      assert kept[i] in rows;
      assert added[j] in added;
    }
    forall x | x in IdSet(procs) ensures x in kept + added {
      if x !in rows { AddedComplete(RowSet(rows), procs, x); }
    }
  }

  /** Rows are never reordered: when no process has vanished, the old rows
      stay first, in their old order, whatever the order of the records. */
  lemma {:induction false} KeptAll(rows: seq<string>, ids: set<string>)
    requires forall x :: x in rows ==> x in ids
    ensures Kept(rows, ids) == rows
  {
    if rows != [] {
      KeptAll(rows[..|rows| - 1], ids);
      assert rows == rows[..|rows| - 1] + [rows[|rows| - 1]];
    }
  }

  lemma ExistingRowsStayInPlace(rows: seq<string>, procs: seq<ProcessRecord>)
    requires forall x :: x in rows ==> x in IdSet(procs)
    ensures Reconcile(rows, procs) == rows + Added(RowSet(rows), procs)
  {
    KeptAll(rows, IdSet(procs));
  }

  /** Deleting the stale rows from the old rows followed by the new ones
      leaves the surviving rows in place followed by the new ones. */
  lemma {:induction false} WithoutStale(rows: seq<string>, ids: set<string>)
    ensures Without(rows, RowSet(rows) - ids) == Kept(rows, ids)
  {
    WithoutKept(rows, RowSet(rows), ids);
  }

  lemma {:induction false} WithoutKept(rows: seq<string>, cur: set<string>, ids: set<string>)
    requires forall x :: x in rows ==> x in cur
    ensures Without(rows, cur - ids) == Kept(rows, ids)
  {
    if rows != [] {
      assert rows == rows[..|rows| - 1] + [rows[|rows| - 1]];
      WithoutKept(rows[..|rows| - 1], cur, ids);
    }
  }

  /** Filtering a concatenation filters each part: the rows that survive
      keep their relative order whatever else is deleted. */
  lemma {:induction false} KeptAppend(a: seq<string>, b: seq<string>, ids: set<string>)
    ensures Kept(a + b, ids) == Kept(a, ids) + Kept(b, ids)
    decreases |b|
  {
    if b == [] {
      assert a + b == a;
    } else {
      assert (a + b)[..|a + b| - 1] == a + b[..|b| - 1];
      KeptAppend(a, b[..|b| - 1], ids);
    }
  }

  lemma {:induction false} WithoutAppend(a: seq<string>, b: seq<string>, gone: set<string>)
    ensures Without(a + b, gone) == Without(a, gone) + Without(b, gone)
    decreases |b|
  {
    if b == [] {
      assert a + b == a;
    } else {
      assert (a + b)[..|a + b| - 1] == a + b[..|b| - 1];
      WithoutAppend(a, b[..|b| - 1], gone);
    }
  }

  lemma {:induction false} WithoutNone(rows: seq<string>, gone: set<string>)
    requires forall x :: x in rows ==> x !in gone
    ensures Without(rows, gone) == rows
  {
    if rows != [] {
      assert rows == rows[..|rows| - 1] + [rows[|rows| - 1]];
      WithoutNone(rows[..|rows| - 1], gone);
    }
  }

  lemma {:induction false} WithoutTwice(rows: seq<string>, gone: set<string>, x: string)
    ensures Without(Without(rows, gone), {x}) == Without(rows, gone + {x})
  {
    if rows != [] {
      var init := rows[..|rows| - 1];
      WithoutTwice(init, gone, x);
      var w := Without(init, gone);
      if rows[|rows| - 1] !in gone {
        assert (w + [rows[|rows| - 1]])[..|w|] == w;
      }
    }
  }

  /** The `ttk.Treeview` of the window: the row ids in display order and the
      values of each row. */
  class Tree {
    var rows: seq<string>
    var values: map<string, ProcessRecord>

    ghost predicate Valid()
      reads this
    {
      DistinctRows(rows) && values.Keys == RowSet(rows)
    }

    constructor ()
      ensures Valid() && rows == [] && values == map[]
    {
      rows, values := [], map[];
    }

    /** `get_children()`. */
    method GetChildren() returns (ids: seq<string>)
      ensures ids == rows
    {
      ids := rows;
    }

    /** `item(iid, values=...)`: new values for an existing row. */
    method Item(iid: string, v: ProcessRecord)
      requires Valid() && iid in values
      modifies this
      ensures Valid()
      ensures rows == old(rows) && values == old(values)[iid := v]
    {
      values := values[iid := v];
    }

    /** `insert("", END, iid=..., values=...)`: a new row at the end. */
    method Insert(iid: string, v: ProcessRecord)
      requires Valid() && iid !in values
      modifies this
      ensures Valid()
      ensures rows == old(rows) + [iid] && values == old(values)[iid := v]
    {
      rows := rows + [iid];
      values := values[iid := v];
    }

    /** `delete(iid)`. */
    method Delete(iid: string)
      requires Valid() && iid in values
      modifies this
      ensures Valid()
      ensures rows == Without(old(rows), {iid}) && values == old(values) - {iid}
    {
      WithoutDistinct(rows, {iid});
      WithoutMembers(rows, {iid});
      rows := Without(rows, {iid});
      values := values - {iid};
    }
  }
}
