/** The window's refresh logic: each cycle samples the processes, applies
    the search and the sort, and reconciles the table with the result. */
module App {
  import opened Text
  import opened Config
  import opened Sampling
  import opened Shaping
  import opened Table

  /** What a cycle hands to the table: the sample, searched, then sorted. */
  function View(procs: seq<ProcessRecord>, searchText: string, key: SortKey): (r: seq<ProcessRecord>)
    ensures |r| <= |procs|
    ensures NormalizeQuery(searchText) == "" ==> |r| == |procs|
  {
    StableSort(key, Search(procs, searchText))
  }

  /** The view holds exactly the sampled records that pass the search,
      ordered by the key (ties: `ViewTies`, distinct pids: `ViewDistinct`). */
  lemma ViewContents(procs: seq<ProcessRecord>, searchText: string, key: SortKey)
    ensures SortedBy(key, View(procs, searchText, key))
    ensures forall p :: p in View(procs, searchText, key) <==>
      p in procs && (NormalizeQuery(searchText) == "" || Matches(NormalizeQuery(searchText), p))
  {
    var found := Search(procs, searchText);
    StableSortSorted(key, found);
    StableSortPermutes(key, found);
    forall p ensures p in View(procs, searchText, key) <==> p in found {
      assert p in View(procs, searchText, key) <==> p in multiset(found);
    }
  }

  /** Sampled records with distinct pids reach the table with distinct pids. */
  lemma ViewDistinct(procs: seq<ProcessRecord>, searchText: string, key: SortKey)
    requires DistinctRecordPids(procs)
    ensures DistinctRecordPids(View(procs, searchText, key))
  {
    SearchDistinct(procs, searchText);
    StableSortDistinct(key, Search(procs, searchText));
  }

  /** Records with equal keys reach the table in the order the search left
      them, that is in sample order. */
  lemma ViewTies(procs: seq<ProcessRecord>, searchText: string, key: SortKey)
    ensures forall y :: KeyClass(key, y, View(procs, searchText, key)) == KeyClass(key, y, Search(procs, searchText))
  {
    forall y ensures KeyClass(key, y, View(procs, searchText, key)) == KeyClass(key, y, Search(procs, searchText)) {
      StableSortStable(key, y, Search(procs, searchText));
    }
  }

  /** A sample over readings with distinct pids has distinct pids. */
  lemma SampleDistinct(lastIo: map<nat, IoMark>, showSystem: bool, now: real, rs: seq<Reading>)
    requires DistinctPids(rs)
    ensures DistinctRecordPids(SampleRun(lastIo, showSystem, now, rs).procs)
  {
    SampleRunIsTrackOfSurvivors(lastIo, showSystem, now, rs);
    SurvivorsDistinct(showSystem, rs);
    TrackAllDistinct(lastIo, now, Survivors(showSystem, rs));
  }

  /** `TaskManagerApp`: the sampler, the table and the two settings the
      refresh reads. */
  class TaskManagerApp {
    const sampler: ProcessSampler
    const tree: Tree
    const showSystem: bool
    const sortBy: string

    ghost predicate Valid()
      reads tree
    {
      tree.Valid()
    }

    /** The window as it starts: an empty table, an empty `last_io`, and the
        sort setting of the configuration ("cpu" when it has none). */
    constructor (cfg: Settings, showSystem: bool)
      ensures Valid() && fresh(sampler) && fresh(tree)
      ensures tree.rows == [] && sampler.lastIo == map[]
      ensures this.showSystem == showSystem
      ensures sortBy == if "sort_by" in cfg then cfg["sort_by"] else "cpu"
    {
      sampler := new ProcessSampler();
      tree := new Tree();
      this.showSystem := showSystem;
      sortBy := if "sort_by" in cfg then cfg["sort_by"] else "cpu";
    }

    /** Search, then sort in place; the list itself becomes an array for the
        sort. */
    static method Shape(procs: seq<ProcessRecord>, searchText: string, key: SortKey)
      returns (shaped: seq<ProcessRecord>)
      ensures shaped == View(procs, searchText, key)
    {
      var found := Search(procs, searchText);
      var a := ToArray(found);
      SortInPlace(a, key);
      shaped := a[..];
    }

    static method ToArray(s: seq<ProcessRecord>) returns (a: array<ProcessRecord>)
      ensures fresh(a) && a[..] == s
    {
      a := new ProcessRecord[|s|];
      forall i | 0 <= i < a.Length {
        a[i] := s[i];
      }
    }

    /** `_update_tree`: rows already present get the new values where they
        are, new pids are appended in record order, and rows whose pid is
        gone are deleted. */
    method UpdateTree(procs: seq<ProcessRecord>)
      requires Valid() && DistinctRecordPids(procs)
      modifies tree
      ensures Valid()
      ensures tree.rows == Reconcile(old(tree.rows), procs)
      ensures tree.values.Keys == IdSet(procs)
      ensures forall i :: 0 <= i < |procs| ==> tree.values[Iid(procs[i])] == procs[i]
    {
      var children := tree.GetChildren();
      var cur := set x | x in children;
      ghost var rows0 := tree.rows;
      var newIds := WriteRows(procs, cur);
      ghost var rows1 := tree.rows;
      DeleteRows(cur - newIds);
      WithoutAppend(rows0, Added(cur, procs), cur - newIds);
      WithoutNone(Added(cur, procs), cur - newIds);
      WithoutStale(rows0, newIds);
      ReconcileRows(rows0, procs);
    }

    /** The first loop of `_update_tree`: update or append the row of each
        record, collecting the new ids. */
    method WriteRows(procs: seq<ProcessRecord>, cur: set<string>) returns (newIds: set<string>)
      requires Valid() && DistinctRecordPids(procs) && cur == RowSet(tree.rows)
      modifies tree
      ensures Valid()
      ensures newIds == IdSet(procs)
      ensures tree.rows == old(tree.rows) + Added(cur, procs)
      ensures forall k :: 0 <= k < |procs| ==>
        Iid(procs[k]) in tree.values && tree.values[Iid(procs[k])] == procs[k]
      ensures forall x :: x in old(tree.values) && x !in IdSet(procs) ==>
        x in tree.values && tree.values[x] == old(tree.values)[x]
    {
      ghost var rows0 := tree.rows;
      ghost var values0 := tree.values;
      newIds := {};
      for i := 0 to |procs|
        invariant tree.Valid()
        invariant newIds == IdSet(procs[..i])
        invariant tree.rows == rows0 + Added(cur, procs[..i])
        invariant Stored(tree.values, procs, i)
        invariant forall x :: x in values0 && x !in newIds ==> x in tree.values && tree.values[x] == values0[x]
      {
        IdSetStep(procs, i);
        WriteRow(procs, i, cur, rows0);
        newIds := newIds + {Iid(procs[i])};
      }
      assert procs[..|procs|] == procs;
    }

    /** One step of that loop: `item` when the record's id was already
        shown, `insert` at the end otherwise. */
    method WriteRow(procs: seq<ProcessRecord>, i: nat, cur: set<string>, ghost rows0: seq<string>)
      requires Valid() && DistinctRecordPids(procs) && i < |procs| && cur == RowSet(rows0)
      requires tree.rows == rows0 + Added(cur, procs[..i]) && Stored(tree.values, procs, i)
      modifies tree
      ensures Valid()
      ensures tree.rows == rows0 + Added(cur, procs[..i + 1])
      ensures Stored(tree.values, procs, i + 1)
      ensures tree.values == old(tree.values)[Iid(procs[i]) := procs[i]]
    {
      var p := procs[i];
      var iid := DecimalString(p.pid);
      FreshId(procs, i);
      RowSetAfterAdded(rows0, cur, procs[..i], iid);
      AddedStep(cur, procs, i);
      StoredStep(tree.values, procs, i);
      if iid in cur {
        tree.Item(iid, p);
      } else {
        tree.Insert(iid, p);
      }
    }

    /** The second loop of `_update_tree`: delete every stale row. */
    method DeleteRows(stale: set<string>)
      requires Valid() && stale <= RowSet(tree.rows)
      modifies tree
      ensures Valid()
      ensures tree.rows == Without(old(tree.rows), stale)
      ensures tree.values == old(tree.values) - stale
    {
      ghost var rows0 := tree.rows;
      ghost var values0 := tree.values;
      var left := stale;
      ghost var deleted: set<string> := {};
      WithoutNone(rows0, deleted);
      while left != {}
        invariant tree.Valid()
        invariant left + deleted == stale
        invariant left !! deleted
        invariant tree.rows == Without(rows0, deleted)
        invariant tree.values == values0 - deleted
        decreases left
      {
        var gone :| gone in left;
        DeleteRow(gone, rows0, values0, deleted);
        left := left - {gone};
        deleted := deleted + {gone};
      }
    }

    /** One step of that loop: `delete` one stale row. */
    method DeleteRow(gone: string, ghost rows0: seq<string>, ghost values0: map<string, ProcessRecord>,
                     ghost deleted: set<string>)
      requires Valid() && gone in values0 && gone !in deleted
      requires tree.rows == Without(rows0, deleted) && tree.values == values0 - deleted
      modifies tree
      ensures Valid()
      ensures tree.rows == Without(rows0, deleted + {gone})
      ensures tree.values == values0 - (deleted + {gone})
    {
      tree.Delete(gone);
      WithoutTwice(rows0, deleted, gone);
    }

    /** One pass of the periodic refresh (`_bg_refresh_loop`): sample, search,
        sort by the configured key, reconcile the table. */
    method BackgroundCycle(now: real, readings: seq<Reading>, searchText: string)
      requires Valid() && DistinctPids(readings)
      modifies sampler, tree
      ensures Valid()
      ensures sampler.lastIo == SampleRun(old(sampler.lastIo), showSystem, now, readings).lastIo
      ensures tree.rows == Reconcile(old(tree.rows),
        View(SampleRun(old(sampler.lastIo), showSystem, now, readings).procs, searchText, CycleSortKey(sortBy)))
      ensures var v := View(SampleRun(old(sampler.lastIo), showSystem, now, readings).procs, searchText, CycleSortKey(sortBy));
        tree.values.Keys == IdSet(v) && forall i :: 0 <= i < |v| ==> tree.values[Iid(v[i])] == v[i]
    {
      var procs := sampler.Sample(showSystem, now, readings);
      var shaped := Shape(procs, searchText, CycleSortKey(sortBy));
      SampleDistinct(old(sampler.lastIo), showSystem, now, readings);
      ViewDistinct(procs, searchText, CycleSortKey(sortBy));
      UpdateTree(shaped);
    }

    /** `refresh_now`: the same pass, but sorted by cpu when the setting is
        "cpu" and by name otherwise. */
    method RefreshNow(now: real, readings: seq<Reading>, searchText: string)
      requires Valid() && DistinctPids(readings)
      modifies sampler, tree
      ensures Valid()
      ensures sampler.lastIo == SampleRun(old(sampler.lastIo), showSystem, now, readings).lastIo
      ensures tree.rows == Reconcile(old(tree.rows),
        View(SampleRun(old(sampler.lastIo), showSystem, now, readings).procs, searchText, RefreshSortKey(sortBy)))
      ensures var v := View(SampleRun(old(sampler.lastIo), showSystem, now, readings).procs, searchText, RefreshSortKey(sortBy));
        tree.values.Keys == IdSet(v) && forall i :: 0 <= i < |v| ==> tree.values[Iid(v[i])] == v[i]
    {
      var procs := sampler.Sample(showSystem, now, readings);
      var shaped := Shape(procs, searchText, RefreshSortKey(sortBy));
      SampleDistinct(old(sampler.lastIo), showSystem, now, readings);
      ViewDistinct(procs, searchText, RefreshSortKey(sortBy));
      UpdateTree(shaped);
    }
  }
}
