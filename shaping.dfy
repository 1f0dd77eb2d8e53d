/** The filter-and-sort stage applied to each sample before display: a
    case-insensitive search on the name or the decimal pid, then a stable
    sort on the configured key. */
module Shaping {
  import opened Text
  import opened Sampling

  // ----- search -----

  /** The normalised query: stripped of surrounding white space, lower-cased. */
  function NormalizeQuery(query: string): (q: string)
    ensures q == "" <==> AllSpace(query)
    ensures forall i :: 0 <= i < |q| ==> !IsUpper(q[i])
  {
    Lower(Strip(query))
  }

  /** `q` occurs in the lower-cased name or in the decimal pid. */
  predicate Matches(q: string, p: ProcessRecord) {
    Contains(Lower(p.name), q) || Contains(DecimalString(p.pid), q)
  }

  /** The records that match `q`, in their original order. */
  function KeepMatching(q: string, procs: seq<ProcessRecord>): (r: seq<ProcessRecord>)
    ensures |r| <= |procs|
    ensures forall p :: p in r <==> p in procs && Matches(q, p)
  {
    if procs == [] then []
    else
      var prev := KeepMatching(q, procs[..|procs| - 1]);
      var last := procs[|procs| - 1];
      assert procs == procs[..|procs| - 1] + [last];
      if Matches(q, last) then prev + [last] else prev
  }

  /** The search step: an empty normalised query leaves the list as it is;
      otherwise exactly the matching records remain, in order. */
  function Search(procs: seq<ProcessRecord>, query: string): (r: seq<ProcessRecord>)
    ensures NormalizeQuery(query) == "" ==> r == procs
    ensures NormalizeQuery(query) != "" ==>
      forall p :: p in r <==> p in procs && Matches(NormalizeQuery(query), p)
  {
    var q := NormalizeQuery(query);
    if q != "" then KeepMatching(q, procs) else procs
  }

  /** Filtering a concatenation filters each part: together with the single
      record case this pins the search down as the order-preserving
      sub-list of matching records. */
  lemma {:induction false} KeepMatchingAppend(q: string, a: seq<ProcessRecord>, b: seq<ProcessRecord>)
    ensures KeepMatching(q, a + b) == KeepMatching(q, a) + KeepMatching(q, b)
    decreases |b|
  {
    if b == [] {
      assert a + b == a;
    } else {
      var b' := b[..|b| - 1];
      assert (a + b)[..|a + b| - 1] == a + b';
      KeepMatchingAppend(q, a, b');
    }
  }

  lemma KeepMatchingSingle(q: string, p: ProcessRecord)
    ensures KeepMatching(q, [p]) == if Matches(q, p) then [p] else []
  {
    assert [p][..0] == [];
  }

  /** A query holding a character that is not a digit can only match on the
      name: searching for "chrome" is a pure name filter. */
  lemma SearchByNameOnly(procs: seq<ProcessRecord>, query: string, k: int)
    requires 0 <= k < |NormalizeQuery(query)| && !IsDigit(NormalizeQuery(query)[k])
    ensures forall p :: p in Search(procs, query) <==>
      p in procs && Contains(Lower(p.name), NormalizeQuery(query))
  {
    var q := NormalizeQuery(query);
    forall p | p in procs ensures Matches(q, p) <==> Contains(Lower(p.name), q) {
      NonDigitNotInDecimal(p.pid, q, k);
    }
  }

  /** The search keeps pids distinct. */
  lemma {:induction false} KeepMatchingDistinct(q: string, procs: seq<ProcessRecord>)
    requires DistinctRecordPids(procs)
    ensures DistinctRecordPids(KeepMatching(q, procs))
  {
    if procs != [] {
      var init := procs[..|procs| - 1];
      KeepMatchingDistinct(q, init);
      var prev := KeepMatching(q, init);
      forall j | 0 <= j < |prev| ensures prev[j].pid != procs[|procs| - 1].pid {
        assert prev[j] in init;
      }
    }
  }

  lemma SearchDistinct(procs: seq<ProcessRecord>, query: string)
    requires DistinctRecordPids(procs)
    ensures DistinctRecordPids(Search(procs, query))
  {
    KeepMatchingDistinct(NormalizeQuery(query), procs);
  }

  // ----- sort keys -----

  /** The four orders of the view. */
  datatype SortKey = Cpu | Memory | Pid | Name

  /** The key chosen by the periodic refresh: cpu, memory, pid, or the name
      for any other setting. */
  function CycleSortKey(sortBy: string): (r: SortKey)
    ensures r == Cpu <==> sortBy == "cpu"
    ensures r == Memory <==> sortBy == "memory"
    ensures r == Pid <==> sortBy == "pid"
  {
    if sortBy == "cpu" then Cpu
    else if sortBy == "memory" then Memory
    else if sortBy == "pid" then Pid
    else Name
  }

  /** The key chosen by an immediate refresh, which knows only cpu and name. */
  function RefreshSortKey(sortBy: string): (r: SortKey)
    ensures r == Cpu <==> sortBy == "cpu"
    ensures r != Cpu ==> r == Name
  {
    if sortBy == "cpu" then Cpu else Name
  }

  /** The two refresh paths sort alike except for the "memory" and "pid"
      settings, which the immediate refresh sorts by name. */
  lemma SortKeysAgree(sortBy: string)
    ensures RefreshSortKey(sortBy) == CycleSortKey(sortBy) <==> sortBy != "memory" && sortBy != "pid"
    ensures RefreshSortKey(sortBy) != Memory && RefreshSortKey(sortBy) != Pid
  {
  }

  /** Python's ordering of strings: by code point, a proper prefix first. */
  predicate LexLess(a: string, b: string) {
    if a == [] then b != []
    else if b == [] then false
    else a[0] < b[0] || (a[0] == b[0] && LexLess(a[1..], b[1..]))
  }

  /** A proper prefix comes first, and a string never comes before one of
      its own prefixes. */
  lemma {:induction false} LexLessPrefix(a: string, b: string)
    ensures a < b ==> LexLess(a, b)
    ensures LexLess(a, b) ==> !(b <= a)
  {
    if a != [] && b != [] {
      LexLessPrefix(a[1..], b[1..]);
      if a < b {
        assert a[0] == b[0] && a[1..] < b[1..];
      }
      if b <= a && a[0] == b[0] {
        assert b[1..] <= a[1..];
      }
    }
  }

  lemma {:induction false} LexIrreflexive(a: string)
    ensures !LexLess(a, a)
  {
    if a != [] { LexIrreflexive(a[1..]); }
  }

  lemma {:induction false} LexTransitive(a: string, b: string, c: string)
    requires LexLess(a, b) && LexLess(b, c)
    ensures LexLess(a, c)
  {
    if a != [] && b != [] && c != [] && a[0] == b[0] == c[0] {
      LexTransitive(a[1..], b[1..], c[1..]);
    }
  }

  lemma {:induction false} LexTotal(a: string, b: string)
    requires a != b
    ensures LexLess(a, b) || LexLess(b, a)
  {
    if a != [] && b != [] && a[0] == b[0] {
      assert a == [a[0]] + a[1..] && b == [b[0]] + b[1..];
      LexTotal(a[1..], b[1..]);
    }
  }

  /** `a` must be placed before `b`: higher cpu, higher memory, lower pid, or
      lower-cased name earlier. */
  predicate Less(key: SortKey, a: ProcessRecord, b: ProcessRecord) {
    match key
    case Cpu => a.cpu > b.cpu
    case Memory => a.memMb > b.memMb
    case Pid => a.pid < b.pid
    case Name => LexLess(Lower(a.name), Lower(b.name))
  }

  /** `a` and `b` have equal sort keys. */
  predicate SameKey(key: SortKey, a: ProcessRecord, b: ProcessRecord) {
    match key
    case Cpu => a.cpu == b.cpu
    case Memory => a.memMb == b.memMb
    case Pid => a.pid == b.pid
    case Name => Lower(a.name) == Lower(b.name)
  }

  /** Exactly one of: `a` first, `b` first, equal keys. */
  lemma Trichotomy(key: SortKey, a: ProcessRecord, b: ProcessRecord)
    ensures SameKey(key, a, b) ==> !Less(key, a, b) && !Less(key, b, a)
    ensures !SameKey(key, a, b) ==> (Less(key, a, b) <==> !Less(key, b, a))
  {
    if key == Name {
      var x, y := Lower(a.name), Lower(b.name);
      if x == y {
        LexIrreflexive(x);
      } else {
        LexTotal(x, y);
        if LexLess(x, y) && LexLess(y, x) {
          LexTransitive(x, y, x);
          LexIrreflexive(x);
        }
      }
    }
  }

  lemma LessTransitive(key: SortKey, a: ProcessRecord, b: ProcessRecord, c: ProcessRecord)
    requires Less(key, a, b) && Less(key, b, c)
    ensures Less(key, a, c)
  {
    if key == Name {
      LexTransitive(Lower(a.name), Lower(b.name), Lower(c.name));
    }
  }

  lemma LexNotLessTransitive(x: string, y: string, z: string)
    requires !LexLess(y, x) && !LexLess(z, y)
    ensures !LexLess(z, x)
  {
    if LexLess(z, x) && x != y {
      LexTotal(x, y);
      LexTransitive(z, x, y);
    }
  }

  /** Not placed after: if `b` is not before `a` and `c` not before `b`, then
      `c` is not before `a`. */
  lemma NotLessTransitive(key: SortKey, a: ProcessRecord, b: ProcessRecord, c: ProcessRecord)
    requires !Less(key, b, a) && !Less(key, c, b)
    ensures !Less(key, c, a)
  {
    if key == Name {
      LexNotLessTransitive(Lower(a.name), Lower(b.name), Lower(c.name));
    }
  }

  // ----- stable sort, as a reference definition -----

  /** No record is placed before one that must come first. */
  predicate SortedBy(key: SortKey, s: seq<ProcessRecord>) {
    forall i, j :: 0 <= i < j < |s| ==> !Less(key, s[j], s[i])
  }

  /** Where a stable insertion puts `x` into `s`: after the last element
      that `x` is not required to precede. */
  function InsertPos(key: SortKey, x: ProcessRecord, s: seq<ProcessRecord>): (p: nat)
    ensures p <= |s|
    ensures forall k {:trigger Less(key, x, s[k])} :: p <= k < |s| ==> Less(key, x, s[k])
    ensures p > 0 ==> !Less(key, x, s[p - 1])
  {
    if s == [] || !Less(key, x, s[|s| - 1]) then |s|
    else InsertPos(key, x, s[..|s| - 1])
  }

  /** The insertion point is the one place after which `x` must precede
      every record and before which it need not. */
  lemma {:induction false} InsertPosAt(key: SortKey, x: ProcessRecord, s: seq<ProcessRecord>, j: nat)
    requires j <= |s|
    requires forall k :: j <= k < |s| ==> Less(key, x, s[k])
    requires j == 0 || !Less(key, x, s[j - 1])
    ensures InsertPos(key, x, s) == j
  {
    if j < |s| {
      var init := s[..|s| - 1];
      assert forall k :: j <= k < |init| ==> init[k] == s[k];
      InsertPosAt(key, x, init, j);
    }
  }

  function Insert(key: SortKey, x: ProcessRecord, s: seq<ProcessRecord>): seq<ProcessRecord> {
    var p := InsertPos(key, x, s);
    s[..p] + [x] + s[p..]
  }

  /** Stable insertion sort: each record in input order goes after every
      record already placed with an equal key. */
  function StableSort(key: SortKey, s: seq<ProcessRecord>): (r: seq<ProcessRecord>)
    ensures |r| == |s|
  {
    if s == [] then [] else Insert(key, s[|s| - 1], StableSort(key, s[..|s| - 1]))
  }

  /** The records whose key equals that of `y`, in order. */
  function KeyClass(key: SortKey, y: ProcessRecord, s: seq<ProcessRecord>): seq<ProcessRecord> {
    if s == [] then []
    else
      var prev := KeyClass(key, y, s[..|s| - 1]);
      if SameKey(key, y, s[|s| - 1]) then prev + [s[|s| - 1]] else prev
  }

  lemma {:induction false} KeyClassAppend(key: SortKey, y: ProcessRecord, a: seq<ProcessRecord>, b: seq<ProcessRecord>)
    ensures KeyClass(key, y, a + b) == KeyClass(key, y, a) + KeyClass(key, y, b)
    decreases |b|
  {
    if b == [] {
      assert a + b == a;
    } else {
      var b' := b[..|b| - 1];
      assert (a + b)[..|a + b| - 1] == a + b';
      KeyClassAppend(key, y, a, b');
    }
  }

  /** No record of `s` shares `y`'s key. */
  lemma {:induction false} KeyClassEmpty(key: SortKey, y: ProcessRecord, s: seq<ProcessRecord>)
    requires forall k :: 0 <= k < |s| ==> !SameKey(key, y, s[k])
    ensures KeyClass(key, y, s) == []
  {
    if s != [] { KeyClassEmpty(key, y, s[..|s| - 1]); }
  }

  lemma InsertPermutes(key: SortKey, x: ProcessRecord, s: seq<ProcessRecord>)
    ensures multiset(Insert(key, x, s)) == multiset(s) + multiset{x}
    ensures |Insert(key, x, s)| == |s| + 1
  {
    SpliceMultiset(s, x, InsertPos(key, x, s));
  }

  /** Splicing one element into a sequence adds exactly that element. */
  lemma SpliceMultiset<T>(s: seq<T>, x: T, p: nat)
    requires p <= |s|
    ensures multiset(s[..p] + [x] + s[p..]) == multiset(s) + multiset{x}
    ensures |s[..p] + [x] + s[p..]| == |s| + 1
  {
    assert s == s[..p] + s[p..];
  }

  lemma InsertSorted(key: SortKey, x: ProcessRecord, s: seq<ProcessRecord>)
    requires SortedBy(key, s)
    ensures SortedBy(key, Insert(key, x, s))
  {
    var p := InsertPos(key, x, s);
    var r := Insert(key, x, s);
    assert |r| == |s| + 1;
    forall i, j | 0 <= i < j < |r| ensures !Less(key, r[j], r[i]) {
      if j < p {
        assert r[i] == s[i] && r[j] == s[j];
      } else if i > p {
        assert r[i] == s[i - 1] && r[j] == s[j - 1];
      } else if i == p {
        assert r[i] == x && r[j] == s[j - 1];
        Trichotomy(key, x, s[j - 1]);
      } else if j == p {
        assert r[i] == s[i] && r[j] == x;
        if i < p - 1 {
          NotLessTransitive(key, s[i], s[p - 1], x);
        }
      } else {
        assert r[i] == s[i] && r[j] == s[j - 1];
      }
    }
  }

  lemma KeyClassSingle(key: SortKey, y: ProcessRecord, x: ProcessRecord)
    ensures KeyClass(key, y, [x]) == if SameKey(key, y, x) then [x] else []
  {
    assert [x][..0] == [];
  }

  /** Records placed after an inserted record never share its key. */
  lemma KeyClassAfterInsertPos(key: SortKey, y: ProcessRecord, x: ProcessRecord, s: seq<ProcessRecord>)
    requires SameKey(key, y, x)
    ensures KeyClass(key, y, s[InsertPos(key, x, s)..]) == []
  {
    var p := InsertPos(key, x, s);
    var back := s[p..];
    forall k | 0 <= k < |back| ensures !SameKey(key, y, back[k]) {
      Trichotomy(key, x, s[p + k]);
    }
    KeyClassEmpty(key, y, back);
  }

  /** The key class of an insertion splits at the insertion position. */
  lemma InsertKeyClassSplit(key: SortKey, y: ProcessRecord, x: ProcessRecord, s: seq<ProcessRecord>, p: nat)
    requires p == InsertPos(key, x, s)
    ensures KeyClass(key, y, s) == KeyClass(key, y, s[..p]) + KeyClass(key, y, s[p..])
    ensures KeyClass(key, y, Insert(key, x, s))
         == KeyClass(key, y, s[..p]) + KeyClass(key, y, [x]) + KeyClass(key, y, s[p..])
  {
    var front, back := s[..p], s[p..];
    assert s == front + back;
    KeyClassAppend(key, y, front, back);
    assert Insert(key, x, s) == (front + [x]) + back;
    KeyClassAppend(key, y, front + [x], back);
    KeyClassAppend(key, y, front, [x]);
  }

  lemma InsertKeyClass(key: SortKey, y: ProcessRecord, x: ProcessRecord, s: seq<ProcessRecord>)
    ensures KeyClass(key, y, Insert(key, x, s))
         == KeyClass(key, y, s) + (if SameKey(key, y, x) then [x] else [])
  {
    var p := InsertPos(key, x, s);
    InsertKeyClassSplit(key, y, x, s, p);
    KeyClassSingle(key, y, x);
    if SameKey(key, y, x) {
      KeyClassAfterInsertPos(key, y, x, s);
    }
  }

  /** The sort is a permutation of its input. */
  lemma {:induction false} StableSortPermutes(key: SortKey, s: seq<ProcessRecord>)
    ensures multiset(StableSort(key, s)) == multiset(s)
    ensures |StableSort(key, s)| == |s|
  {
    if s != [] {
      var init, last := s[..|s| - 1], s[|s| - 1];
      var t := StableSort(key, init);
      StableSortPermutes(key, init);
      InsertPermutes(key, last, t);
      LastMultiset(s);
      assert StableSort(key, s) == Insert(key, last, t);
    }
  }

  /** The multiset of a non-empty sequence: that of its front plus its last
      element. */
  lemma LastMultiset<T>(s: seq<T>)
    requires s != []
    ensures multiset(s) == multiset(s[..|s| - 1]) + multiset{s[|s| - 1]}
  {
    assert s == s[..|s| - 1] + [s[|s| - 1]];
  }

  /** The output is ordered: non-increasing cpu or memory, non-decreasing pid
      or lower-cased name, according to the key. */
  lemma {:induction false} StableSortSorted(key: SortKey, s: seq<ProcessRecord>)
    ensures SortedBy(key, StableSort(key, s))
  {
    if s != [] {
      StableSortSorted(key, s[..|s| - 1]);
      InsertSorted(key, s[|s| - 1], StableSort(key, s[..|s| - 1]));
    }
  }

  /** Ties keep their input order: the records of each key class appear in
      the output in the same order as in the input. */
  lemma {:induction false} StableSortStable(key: SortKey, y: ProcessRecord, s: seq<ProcessRecord>)
    ensures KeyClass(key, y, StableSort(key, s)) == KeyClass(key, y, s)
  {
    if s != [] {
      StableSortStable(key, y, s[..|s| - 1]);
      InsertKeyClass(key, y, s[|s| - 1], StableSort(key, s[..|s| - 1]));
    }
  }

  /** SortedBy read out for each key. */
  lemma SortedByMeaning(key: SortKey, s: seq<ProcessRecord>, i: int, j: int)
    requires SortedBy(key, s) && 0 <= i < j < |s|
    ensures key == Cpu ==> s[i].cpu >= s[j].cpu
    ensures key == Memory ==> s[i].memMb >= s[j].memMb
    ensures key == Pid ==> s[i].pid <= s[j].pid
    ensures key == Name ==> !LexLess(Lower(s[j].name), Lower(s[i].name))
  {
  }

  lemma InsertDistinct(key: SortKey, x: ProcessRecord, s: seq<ProcessRecord>)
    requires DistinctRecordPids(s)
    requires forall k :: 0 <= k < |s| ==> s[k].pid != x.pid
    ensures DistinctRecordPids(Insert(key, x, s))
  {
    var p := InsertPos(key, x, s);
    var r := Insert(key, x, s);
    forall i, j | 0 <= i < j < |r| ensures r[i].pid != r[j].pid {
      if j < p {
        assert r[i] == s[i] && r[j] == s[j];
      } else if i > p {
        assert r[i] == s[i - 1] && r[j] == s[j - 1];
      } else if i == p {
        assert r[j] == s[j - 1];
      } else if j == p {
        assert r[i] == s[i];
      } else {
        assert r[i] == s[i] && r[j] == s[j - 1];
      }
    }
  }

  /** The sort keeps pids distinct. */
  lemma {:induction false} StableSortDistinct(key: SortKey, s: seq<ProcessRecord>)
    requires DistinctRecordPids(s)
    ensures DistinctRecordPids(StableSort(key, s))
  {
    if s != [] {
      var init := s[..|s| - 1];
      var x := s[|s| - 1];
      StableSortDistinct(key, init);
      var sorted := StableSort(key, init);
      StableSortPermutes(key, init);
      forall k | 0 <= k < |sorted| ensures sorted[k].pid != x.pid {
        assert sorted[k] in multiset(init);
        var a :| 0 <= a < |init| && init[a] == sorted[k];
        assert s[a].pid != s[|s| - 1].pid;
      }
      InsertDistinct(key, x, sorted);
    }
  }

  // ----- the in-place sort -----

  /** Sorting one more element of `s` inserts it into the sorted prefix. */
  lemma StableSortStep(key: SortKey, s: seq<ProcessRecord>, i: nat)
    requires i < |s|
    ensures StableSort(key, s[..i + 1]) == Insert(key, s[i], StableSort(key, s[..i]))
  {
    assert s[..i + 1][..i] == s[..i];
  }

  /** One insertion step: `a[i]` moves left past every record it must
      precede; `a[..i]` is already sorted. */
  method InsertStep(a: array<ProcessRecord>, key: SortKey, i: nat)
    requires i < a.Length
    modifies a
    ensures a[..i + 1] == Insert(key, old(a[i]), old(a[..i]))
    ensures forall k :: i < k < a.Length ==> a[k] == old(a[k])
  {
    var x := a[i];
    ghost var sorted := a[..i];
    var j := ShiftRight(a, key, i);
    InsertPosAt(key, x, sorted, j);
    a[j] := x;
    SplicedIsInsert(key, x, sorted, j, a[..i + 1]);
  }

  /** Moves `a[j..i]` one place right, for the smallest `j` such that `a[i]`
      must precede every record of `a[j..i]`, and returns `j`. */
  method ShiftRight(a: array<ProcessRecord>, key: SortKey, i: nat) returns (j: nat)
    requires i < a.Length
    modifies a
    ensures j <= i
    ensures forall k :: 0 <= k < j ==> a[k] == old(a[k])
    ensures forall k :: j < k <= i ==> a[k] == old(a[k - 1])
    ensures forall k :: i < k < a.Length ==> a[k] == old(a[k])
    ensures forall k :: j <= k < i ==> Less(key, old(a[i]), old(a[k]))
    ensures j == 0 || !Less(key, old(a[i]), old(a[j - 1]))
  {
    var x := a[i];
    j := i;
    while j > 0 && Less(key, x, a[j - 1])
      invariant 0 <= j <= i
      invariant forall k :: 0 <= k < j ==> a[k] == old(a[k])
      invariant forall k :: j < k <= i ==> a[k] == old(a[k - 1])
      invariant forall k :: i < k < a.Length ==> a[k] == old(a[k])
      invariant forall k :: j <= k < i ==> Less(key, x, old(a[k]))
    {
      a[j] := a[j - 1];
      j := j - 1;
    }
  }

  /** A sequence that is `s` with `x` placed at its insertion position is
      `Insert(key, x, s)`. */
  lemma SplicedIsInsert(key: SortKey, x: ProcessRecord, s: seq<ProcessRecord>, j: nat, t: seq<ProcessRecord>)
    requires j <= |s| && InsertPos(key, x, s) == j
    requires |t| == |s| + 1 && t[j] == x
    requires forall k :: 0 <= k < j ==> t[k] == s[k]
    requires forall k :: j < k < |t| ==> t[k] == s[k - 1]
    ensures t == Insert(key, x, s)
  {
    var r := s[..j] + [x] + s[j..];
    forall k | 0 <= k < |t| ensures t[k] == r[k] {
      if k < j { assert r[k] == s[k]; }
      else if k > j { assert r[k] == s[k - 1]; }
    }
  }

  /** `procs.sort(key=..., reverse=...)`: a stable sort in place, here an
      insertion sort over the array. */
  method SortInPlace(a: array<ProcessRecord>, key: SortKey)
    modifies a
    ensures a[..] == StableSort(key, old(a[..]))
  {
    ghost var input := a[..];
    var i := 0;
    while i < a.Length
      invariant 0 <= i <= a.Length
      invariant a[..i] == StableSort(key, input[..i])
      invariant forall k :: i <= k < a.Length ==> a[k] == input[k]
    {
      assert a[i] == input[i];
      InsertStep(a, key, i);
      StableSortStep(key, input, i);
      assert a[..i + 1] == Insert(key, input[i], StableSort(key, input[..i]));
      i := i + 1;
    }
    assert input[..a.Length] == input;
  }
}
