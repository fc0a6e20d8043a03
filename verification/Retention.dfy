/** The retention rule of pruneRetention and the listing order it relies on. */
module Retention {
  import opened Basics
  import opened Tables

  datatype Policy = Policy(keepLast: int, keepDays: int)

  /** A job with no policy keeps everything. */
  predicate HasPolicy(p: Policy) {
    p.keepLast > 0 || p.keepDays > 0
  }

  /** The branches of the pruning loop, for the i-th newest snapshot. */
  predicate Keeps(p: Policy, cutoff: int, i: nat, created: int) {
    i == 0 || (p.keepLast > 0 && i < p.keepLast) || (p.keepDays > 0 && created >= cutoff)
  }

  /** What the loop keeps from index `i` on. */
  function KeptFrom(p: Policy, cutoff: int, snaps: seq<Snapshot>, i: nat): seq<Snapshot>
    requires i <= |snaps|
    decreases |snaps| - i
  {
    if i == |snaps| then []
    else (if Keeps(p, cutoff, i, snaps[i].created) then [snaps[i]] else []) + KeptFrom(p, cutoff, snaps, i + 1)
  }

  function Prune(p: Policy, cutoff: int, snaps: seq<Snapshot>): seq<Snapshot> {
    if HasPolicy(p) then KeptFrom(p, cutoff, snaps, 0) else snaps
  }

  ghost predicate NewestFirst(snaps: seq<Snapshot>) {
    forall i, j :: 0 <= i < j < |snaps| ==> snaps[i].created >= snaps[j].created
  }

  // ---------- the kept set is a prefix ----------

  /** The first index the rule does not keep. */
  function KeepCount(p: Policy, cutoff: int, snaps: seq<Snapshot>, i: nat): (n: nat)
    requires i <= |snaps|
    ensures i <= n <= |snaps|
    ensures forall k :: i <= k < n ==> Keeps(p, cutoff, k, snaps[k].created)
    ensures n < |snaps| ==> !Keeps(p, cutoff, n, snaps[n].created)
    decreases |snaps| - i
  {
    if i == |snaps| || !Keeps(p, cutoff, i, snaps[i].created) then i
    else KeepCount(p, cutoff, snaps, i + 1)
  }

  lemma {:induction false} NothingKept(p: Policy, cutoff: int, snaps: seq<Snapshot>, i: nat)
    requires i <= |snaps|
    requires forall k :: i <= k < |snaps| ==> !Keeps(p, cutoff, k, snaps[k].created)
    ensures KeptFrom(p, cutoff, snaps, i) == []
    decreases |snaps| - i
  {
    if i < |snaps| {
      NothingKept(p, cutoff, snaps, i + 1);
    }
  }

  lemma {:induction false} KeptFromIsSlice(p: Policy, cutoff: int, snaps: seq<Snapshot>, i: nat)
    requires i <= |snaps| && NewestFirst(snaps)
    ensures KeptFrom(p, cutoff, snaps, i) == snaps[i..KeepCount(p, cutoff, snaps, i)]
    decreases |snaps| - i
  {
    if i < |snaps| {
      if Keeps(p, cutoff, i, snaps[i].created) {
        KeptFromIsSlice(p, cutoff, snaps, i + 1);
      } else {
        NothingKept(p, cutoff, snaps, i);
      }
    }
  }

  /** Pruning keeps a newest-first prefix, which contains the newest snapshot;
      every snapshot in it satisfies the rule and none beyond it does. */
  lemma PruneIsPrefix(p: Policy, cutoff: int, snaps: seq<Snapshot>) returns (n: nat)
    requires NewestFirst(snaps)
    ensures n <= |snaps| && Prune(p, cutoff, snaps) == snaps[..n]
    ensures snaps != [] ==> n >= 1
    ensures HasPolicy(p) ==> forall i :: 0 <= i < |snaps| ==> (i < n <==> Keeps(p, cutoff, i, snaps[i].created))
    ensures !HasPolicy(p) ==> n == |snaps|
  {
    if HasPolicy(p) {
      n := KeepCount(p, cutoff, snaps, 0);
      KeptFromIsSlice(p, cutoff, snaps, 0);
      forall i | n <= i < |snaps|
        ensures !Keeps(p, cutoff, i, snaps[i].created)
      {
        assert !Keeps(p, cutoff, n, snaps[n].created);
      }
    } else {
      n := |snaps|;
    }
  }

  /** Keep-last alone keeps just so many of the newest; a job with neither rule keeps all. */
  lemma KeepLastAlone(p: Policy, cutoff: int, snaps: seq<Snapshot>)
    requires NewestFirst(snaps) && p.keepDays <= 0
    ensures Prune(p, cutoff, snaps) == if 0 < p.keepLast < |snaps| then snaps[..p.keepLast] else snaps
  {
    var n := PruneIsPrefix(p, cutoff, snaps);
    if p.keepLast > 0 {
      if n < |snaps| {
        assert !Keeps(p, cutoff, n, snaps[n].created);
      }
      if 0 < n {
        assert Keeps(p, cutoff, n - 1, snaps[n - 1].created);
      }
    }
  }

  /** Keep-days alone keeps everything made since the cutoff, and the newest in any case. */
  lemma KeepDaysAlone(p: Policy, cutoff: int, snaps: seq<Snapshot>)
    requires NewestFirst(snaps) && p.keepLast <= 0 && p.keepDays > 0
    ensures Prune(p, cutoff, snaps) <= snaps
    ensures forall i :: 0 <= i < |snaps| ==>
              (i < |Prune(p, cutoff, snaps)| <==> i == 0 || snaps[i].created >= cutoff)
  {
    var n := PruneIsPrefix(p, cutoff, snaps);
    assert forall i :: 0 <= i < |snaps| ==> (i < n <==> Keeps(p, cutoff, i, snaps[i].created));
  }

  /** With both rules a snapshot stays if either rule alone would keep it. */
  lemma BothRulesKeepMore(p: Policy, cutoff: int, snaps: seq<Snapshot>)
    requires NewestFirst(snaps) && p.keepLast > 0 && p.keepDays > 0
    ensures var last := Prune(p.(keepDays := 0), cutoff, snaps);
            var days := Prune(p.(keepLast := 0), cutoff, snaps);
            Prune(p, cutoff, snaps) == if |last| >= |days| then last else days
  {
    var a, b, c := p.(keepDays := 0), p.(keepLast := 0), p;
    var n1 := PruneIsPrefix(a, cutoff, snaps);
    var n2 := PruneIsPrefix(b, cutoff, snaps);
    var n := PruneIsPrefix(c, cutoff, snaps);
    var m := if n1 >= n2 then n1 else n2;
    assert forall i :: 0 <= i < |snaps| ==>
             (Keeps(c, cutoff, i, snaps[i].created)
              <==> Keeps(a, cutoff, i, snaps[i].created) || Keeps(b, cutoff, i, snaps[i].created));
    assert n < |snaps| ==> !Keeps(c, cutoff, n, snaps[n].created);
    assert m < |snaps| ==> !Keeps(a, cutoff, m, snaps[m].created) && !Keeps(b, cutoff, m, snaps[m].created);
    assert n == m;
  }

  /** A later pass over what an earlier pass left does what it would have done on
      the whole list; with equal cutoffs, pruning is idempotent. */
  lemma PruneAbsorbs(p: Policy, c1: int, c2: int, snaps: seq<Snapshot>)
    requires NewestFirst(snaps) && c1 <= c2
    ensures Prune(p, c2, Prune(p, c1, snaps)) == Prune(p, c2, snaps)
  {
    var n1 := PruneIsPrefix(p, c1, snaps);
    var n2 := PruneIsPrefix(p, c2, snaps);
    var m := PruneIsPrefix(p, c2, snaps[..n1]);
    if HasPolicy(p) {
      assert forall i :: 0 <= i < |snaps| && Keeps(p, c2, i, snaps[i].created) ==> Keeps(p, c1, i, snaps[i].created);
      SamePrefix(p, c2, snaps, n1, n2, m);
    }
  }

  lemma SamePrefix(p: Policy, cutoff: int, snaps: seq<Snapshot>, n1: nat, n2: nat, m: nat)
    requires n1 <= |snaps| && n2 <= |snaps| && m <= n1
    requires forall i :: 0 <= i < |snaps| ==> (i < n2 <==> Keeps(p, cutoff, i, snaps[i].created))
    requires forall i :: 0 <= i < n1 ==> (i < m <==> Keeps(p, cutoff, i, snaps[..n1][i].created))
    requires forall i :: 0 <= i < |snaps| && Keeps(p, cutoff, i, snaps[i].created) ==> i < n1
    ensures snaps[..n1][..m] == snaps[..n2]
  {
    assert forall i :: 0 <= i < n1 ==> snaps[..n1][i] == snaps[i];
    if m < |snaps| {
      assert m < n2 <==> Keeps(p, cutoff, m, snaps[m].created);
    }
    if n2 < n1 {
      assert n2 < m <==> Keeps(p, cutoff, n2, snaps[n2].created);
    }
  }

  // ---------- pruning as you go ----------

  /** One committed snapshot and the cutoff of the pruning pass after it. */
  datatype Commit = Commit(sn: Snapshot, cutoff: int)

  /** Newest first, pruned after every commit. */
  function PrunedAsYouGo(p: Policy, history: seq<Commit>): seq<Snapshot> {
    if history == [] then []
    else
      var c := history[|history| - 1];
      Prune(p, c.cutoff, [c.sn] + PrunedAsYouGo(p, history[..|history| - 1]))
  }

  /** The whole history, newest first. */
  function Everything(history: seq<Commit>): seq<Snapshot> {
    if history == [] then []
    else [history[|history| - 1].sn] + Everything(history[..|history| - 1])
  }

  /** The clock and the cutoff never run backwards. */
  ghost predicate Chronological(history: seq<Commit>) {
    forall i, j :: 0 <= i < j < |history| ==>
      history[i].sn.created <= history[j].sn.created && history[i].cutoff <= history[j].cutoff
  }

  lemma {:induction false} EverythingAt(history: seq<Commit>)
    ensures |Everything(history)| == |history|
    ensures forall i :: 0 <= i < |history| ==> Everything(history)[i] == history[|history| - 1 - i].sn
  {
    if history != [] {
      var k := |history| - 1;
      EverythingAt(history[..k]);
      assert Everything(history) == [history[k].sn] + Everything(history[..k]);
    }
  }

  /** Adding a newer snapshot in front commutes with an earlier pruning pass. */
  lemma PruneBehindNewer(p: Policy, c1: int, c2: int, sn: Snapshot, snaps: seq<Snapshot>)
    requires NewestFirst([sn] + snaps) && c1 <= c2
    ensures Prune(p, c2, [sn] + Prune(p, c1, snaps)) == Prune(p, c2, [sn] + snaps)
  {
    var all := [sn] + snaps;
    assert NewestFirst(snaps) by {
      forall i, j | 0 <= i < j < |snaps| ensures snaps[i].created >= snaps[j].created {
        assert all[i + 1] == snaps[i] && all[j + 1] == snaps[j];
      }
    }
    var n1 := PruneIsPrefix(p, c1, snaps);
    var part := [sn] + snaps[..n1];
    assert part == all[..n1 + 1];
    var n2 := PruneIsPrefix(p, c2, all);
    var m := PruneIsPrefix(p, c2, part);
    if HasPolicy(p) {
      forall i | 0 <= i < |all| && Keeps(p, c2, i, all[i].created)
        ensures i < n1 + 1
      {
        if i > 0 {
          assert all[i] == snaps[i - 1];
          assert Keeps(p, c1, i - 1, snaps[i - 1].created);
        }
      }
      SamePrefix(p, c2, all, n1 + 1, n2, m);
    }
  }

  /** Pruning after every commit leaves the same snapshots as pruning the whole
      commit history once at the end. */
  lemma {:induction false} PruneOnceAtTheEnd(p: Policy, history: seq<Commit>)
    requires Chronological(history) && history != []
    ensures PrunedAsYouGo(p, history) == Prune(p, history[|history| - 1].cutoff, Everything(history))
  {
    var k := |history| - 1;
    var before := history[..k];
    EverythingAt(history);
    if before != [] {
      PruneOnceAtTheEnd(p, before);
      PruneBehindNewer(p, before[k - 1].cutoff, history[k].cutoff, history[k].sn, Everything(before));
    }
  }

  // ---------- a pass that fails midway ----------

  /** The list when a deletion fails at index `k`: earlier ones are done. */
  function StoppedAt(p: Policy, cutoff: int, snaps: seq<Snapshot>, k: nat): seq<Snapshot>
    requires k <= |snaps|
  {
    KeptFrom(p, cutoff, snaps[..k], 0) + snaps[k..]
  }

  lemma GapIsSorted(snaps: seq<Snapshot>, n: nat, k: nat)
    requires NewestFirst(snaps) && n <= k <= |snaps|
    ensures NewestFirst(snaps[..n] + snaps[k..])
  {
    var left := snaps[..n] + snaps[k..];
    forall i, j | 0 <= i < j < |left|
      ensures left[i].created >= left[j].created
    {
      assert left[i] == snaps[if i < n then i else i - n + k];
      assert left[j] == snaps[if j < n then j else j - n + k];
    }
  }

  /** A gap behind the kept prefix does not change what is kept. */
  lemma GapIsHarmless(p: Policy, cutoff: int, snaps: seq<Snapshot>, n: nat, k: nat)
    requires NewestFirst(snaps) && HasPolicy(p) && n < k <= |snaps|
    requires forall i :: 0 <= i < n ==> Keeps(p, cutoff, i, snaps[i].created)
    requires !Keeps(p, cutoff, n, snaps[n].created)
    ensures Prune(p, cutoff, snaps[..n] + snaps[k..]) == snaps[..n]
  {
    var left := snaps[..n] + snaps[k..];
    GapIsSorted(snaps, n, k);
    var r := PruneIsPrefix(p, cutoff, left);
    assert forall i :: 0 <= i < n ==> left[i] == snaps[i];
    forall i | n <= i < |left|
      ensures !Keeps(p, cutoff, i, left[i].created)
    {
      assert left[i] == snaps[i - n + k];
      assert snaps[n].created >= snaps[i - n + k].created;
    }
    assert forall i :: 0 <= i < n ==> Keeps(p, cutoff, i, left[i].created);
    assert r < |left| ==> !Keeps(p, cutoff, r, left[r].created);
    assert n < |left| ==> !Keeps(p, cutoff, n, left[n].created);
    assert r == n;
    assert left[..n] == snaps[..n];
  }

  lemma StoppedInPrefix(p: Policy, cutoff: int, snaps: seq<Snapshot>, k: nat)
    requires NewestFirst(snaps) && HasPolicy(p) && k <= |snaps|
    requires forall i :: 0 <= i < k ==> Keeps(p, cutoff, i, snaps[i].created)
    ensures StoppedAt(p, cutoff, snaps, k) == snaps
  {
    var m := PruneIsPrefix(p, cutoff, snaps[..k]);
    assert k > 0 ==> snaps[..k][k - 1] == snaps[k - 1];
    assert k > 0 ==> Keeps(p, cutoff, k - 1, snaps[..k][k - 1].created);
    assert m == k;
    assert snaps[..k][..k] + snaps[k..] == snaps;
  }

  /** Deletion starts with the newest expired snapshot, so a failed pass can leave
      a gap; the next pass still ends where one complete pass would have. */
  lemma RetryCompletes(p: Policy, cutoff: int, snaps: seq<Snapshot>, k: nat)
    requires NewestFirst(snaps) && HasPolicy(p) && k <= |snaps|
    ensures Prune(p, cutoff, StoppedAt(p, cutoff, snaps, k)) == Prune(p, cutoff, snaps)
  {
    var n := PruneIsPrefix(p, cutoff, snaps);
    if k <= n {
      StoppedInPrefix(p, cutoff, snaps, k);
    } else {
      var m := PruneIsPrefix(p, cutoff, snaps[..k]);
      SamePrefix(p, cutoff, snaps, k, n, m);
      GapIsHarmless(p, cutoff, snaps, n, k);
    }
  }

  // ---------- ORDER BY created_at DESC, rowid DESC ----------

  /** Inserts a row whose rowid is above every row of `sorted`. */
  function InsertNewest(sn: Snapshot, sorted: seq<Snapshot>): seq<Snapshot> {
    if sorted == [] || sorted[0].created <= sn.created then [sn] + sorted
    else [sorted[0]] + InsertNewest(sn, sorted[1..])
  }

  function Listed(rows: seq<Snapshot>): seq<Snapshot> {
    if rows == [] then [] else InsertNewest(rows[|rows| - 1], Listed(rows[..|rows| - 1]))
  }

  lemma {:induction false} InsertKeepsRows(sn: Snapshot, sorted: seq<Snapshot>)
    ensures multiset(InsertNewest(sn, sorted)) == multiset(sorted) + multiset{sn}
  {
    if sorted == [] || sorted[0].created <= sn.created {
    } else {
      InsertKeepsRows(sn, sorted[1..]);
      assert sorted == [sorted[0]] + sorted[1..];
    }
  }

  lemma {:induction false} InsertKeepsOrder(sn: Snapshot, sorted: seq<Snapshot>)
    requires NewestFirst(sorted)
    ensures NewestFirst(InsertNewest(sn, sorted))
  {
    if sorted == [] || sorted[0].created <= sn.created {
    } else {
      InsertKeepsOrder(sn, sorted[1..]);
      InsertBehind(sn, sorted);
      NewestFirstCons(sorted[0], InsertNewest(sn, sorted[1..]));
    }
  }

  lemma InsertBehind(sn: Snapshot, sorted: seq<Snapshot>)
    requires NewestFirst(sorted) && sorted != [] && sorted[0].created > sn.created
    ensures forall x :: x in InsertNewest(sn, sorted[1..]) ==> sorted[0].created >= x.created
  {
    var rest := InsertNewest(sn, sorted[1..]);
    InsertKeepsRows(sn, sorted[1..]);
    forall x | x in rest
      ensures sorted[0].created >= x.created
    {
      assert x in multiset(rest);
    }
  }

  lemma NewestFirstCons(x: Snapshot, rest: seq<Snapshot>)
    requires NewestFirst(rest) && forall y :: y in rest ==> x.created >= y.created
    ensures NewestFirst([x] + rest)
  {
  }

  /** The listing holds exactly the rows, newest first, whatever the clock did. */
  lemma {:induction false} ListedIsSorted(rows: seq<Snapshot>)
    ensures NewestFirst(Listed(rows)) && multiset(Listed(rows)) == multiset(rows)
  {
    if rows != [] {
      var k := |rows| - 1;
      ListedIsSorted(rows[..k]);
      InsertKeepsOrder(rows[k], Listed(rows[..k]));
      InsertKeepsRows(rows[k], Listed(rows[..k]));
      assert rows == rows[..k] + [rows[k]];
    }
  }

  /** With a clock that never runs backwards it is the insertion order reversed. */
  lemma {:induction false} ListedIsReversed(rows: seq<Snapshot>)
    requires forall i, j :: 0 <= i < j < |rows| ==> rows[i].created <= rows[j].created
    ensures |Listed(rows)| == |rows|
    ensures forall i :: 0 <= i < |rows| ==> Listed(rows)[i] == rows[|rows| - 1 - i]
  {
    if rows != [] {
      var k := |rows| - 1;
      var rest := Listed(rows[..k]);
      ListedIsReversed(rows[..k]);
      assert k > 0 ==> rest[0] == rows[k - 1];
      assert Listed(rows) == [rows[k]] + rest;
    }
  }

  // ---------- deleting a row of a listing ----------

  /** PRIMARY KEY (id). */
  ghost predicate UniqueIds(rows: seq<Snapshot>) {
    && (forall sn :: multiset(rows)[sn] <= 1)
    && (forall x, y :: x in rows && y in rows && x.id == y.id ==> x == y)
  }

  /** The rows of one job in one backend. */
  function OfJob(rows: seq<Snapshot>, backend: string, job: string): (r: seq<Snapshot>)
    ensures forall sn :: sn in r <==> sn in rows && sn.backend == backend && sn.job == job
  {
    if rows == [] then []
    else
      var rest := OfJob(rows[1..], backend, job);
      if rows[0].backend == backend && rows[0].job == job then [rows[0]] + rest else rest
  }

  lemma {:induction false} SublistsCount(rows: seq<Snapshot>, backend: string, job: string, id: string)
    ensures multiset(OfJob(rows, backend, job)) <= multiset(rows)
    ensures multiset(WithoutId(rows, id)) <= multiset(rows)
  {
    if rows != [] {
      SublistsCount(rows[1..], backend, job, id);
      assert rows == [rows[0]] + rows[1..];
    }
  }

  lemma UniqueSublists(rows: seq<Snapshot>, backend: string, job: string, id: string)
    requires UniqueIds(rows)
    ensures UniqueIds(WithoutId(rows, id)) && UniqueIds(Listed(OfJob(rows, backend, job)))
  {
    SublistsCount(rows, backend, job, id);
    ListedIsSorted(OfJob(rows, backend, job));
    forall x | x in Listed(OfJob(rows, backend, job)) ensures x in rows {
      assert x in multiset(Listed(OfJob(rows, backend, job)));
    }
  }

  lemma {:induction false} WithoutIdAppend(a: seq<Snapshot>, b: seq<Snapshot>, id: string)
    ensures WithoutId(a + b, id) == WithoutId(a, id) + WithoutId(b, id)
  {
    if a == [] {
      assert a + b == b;
    } else {
      WithoutIdAppend(a[1..], b, id);
      ConsAppend(a, b);
      WithoutIdCons(a[0], a[1..] + b, id);
    }
  }

  lemma WithoutIdCons(x: Snapshot, rest: seq<Snapshot>, id: string)
    ensures WithoutId([x] + rest, id) == if x.id == id then WithoutId(rest, id) else [x] + WithoutId(rest, id)
  {
    assert ([x] + rest)[1..] == rest;
  }

  lemma {:induction false} WithoutIdAbsent(a: seq<Snapshot>, id: string)
    requires forall sn :: sn in a ==> sn.id != id
    ensures WithoutId(a, id) == a
  {
    if a != [] {
      WithoutIdAbsent(a[1..], id);
    }
  }

  lemma {:induction false} WithoutIdInsert(sn: Snapshot, sorted: seq<Snapshot>, id: string)
    requires NewestFirst(sorted)
    ensures WithoutId(InsertNewest(sn, sorted), id)
         == if sn.id == id then WithoutId(sorted, id) else InsertNewest(sn, WithoutId(sorted, id))
  {
    if sorted == [] || sorted[0].created <= sn.created {
      assert ([sn] + sorted)[1..] == sorted;
      var rest := WithoutId(sorted, id);
      if rest != [] {
        assert rest[0] in sorted;
      }
    } else {
      WithoutIdInsert(sn, sorted[1..], id);
      assert InsertNewest(sn, sorted)[1..] == InsertNewest(sn, sorted[1..]);
    }
  }

  lemma ListedAppend(a: seq<Snapshot>, x: Snapshot)
    ensures Listed(a + [x]) == InsertNewest(x, Listed(a))
  {
    assert (a + [x])[..|a|] == a;
  }

  lemma {:induction false} WithoutIdListed(rows: seq<Snapshot>, id: string)
    ensures WithoutId(Listed(rows), id) == Listed(WithoutId(rows, id))
  {
    if rows != [] {
      var a, x := rows[..|rows| - 1], rows[|rows| - 1];
      assert rows == a + [x];
      WithoutIdListed(a, id);
      ListedIsSorted(a);
      WithoutIdInsert(x, Listed(a), id);
      WithoutIdAppend(a, [x], id);
      if x.id == id {
        assert WithoutId(rows, id) == WithoutId(a, id);
      } else {
        assert WithoutId([x], id) == [x];
        ListedAppend(WithoutId(a, id), x);
      }
    }
  }

  lemma {:induction false} WithoutIdOfJob(rows: seq<Snapshot>, backend: string, job: string, id: string)
    ensures OfJob(WithoutId(rows, id), backend, job) == WithoutId(OfJob(rows, backend, job), id)
  {
    if rows != [] {
      WithoutIdOfJob(rows[1..], backend, job, id);
      var rest := OfJob(rows[1..], backend, job);
      assert ([rows[0]] + rest)[1..] == rest;
      var kept := WithoutId(rows[1..], id);
      assert ([rows[0]] + kept)[1..] == kept;
    }
  }

  lemma {:induction false} KeptFromNext(p: Policy, cutoff: int, snaps: seq<Snapshot>, i: nat, j: nat)
    requires j <= i < |snaps|
    ensures KeptFrom(p, cutoff, snaps[..i + 1], j)
         == KeptFrom(p, cutoff, snaps[..i], j) + if Keeps(p, cutoff, i, snaps[i].created) then [snaps[i]] else []
    decreases i - j
  {
    if j < i {
      KeptFromNext(p, cutoff, snaps, i, j + 1);
    } else {
      assert KeptFrom(p, cutoff, snaps[..i + 1], i + 1) == [];
    }
  }

  lemma {:induction false} KeptFromWithin(p: Policy, cutoff: int, snaps: seq<Snapshot>, i: nat)
    requires i <= |snaps|
    ensures forall sn :: sn in KeptFrom(p, cutoff, snaps, i) ==> sn in snaps
    decreases |snaps| - i
  {
    if i < |snaps| {
      KeptFromWithin(p, cutoff, snaps, i + 1);
    }
  }

  lemma IdOnlyAt(snaps: seq<Snapshot>, i: nat)
    requires UniqueIds(snaps) && i < |snaps|
    ensures forall sn :: sn in snaps[..i] || sn in snaps[i + 1..] ==> sn.id != snaps[i].id
  {
    var x := snaps[i];
    assert snaps == snaps[..i] + [x] + snaps[i + 1..];
    assert multiset(snaps)[x] == multiset(snaps[..i])[x] + 1 + multiset(snaps[i + 1..])[x];
    assert x !in multiset(snaps[..i]) && x !in multiset(snaps[i + 1..]);
  }

  lemma WithoutIdMiddle(a: seq<Snapshot>, x: Snapshot, b: seq<Snapshot>)
    requires forall sn :: sn in a || sn in b ==> sn.id != x.id
    ensures WithoutId(a + ([x] + b), x.id) == a + b
  {
    WithoutIdAppend(a, [x] + b, x.id);
    WithoutIdAbsent(a, x.id);
    WithoutIdAbsent(b, x.id);
    assert ([x] + b)[1..] == b;
  }

  lemma Advance(kept: seq<Snapshot>, x: Snapshot, rest: seq<Snapshot>)
    requires forall sn :: sn in kept || sn in rest ==> sn.id != x.id
    ensures (kept + [x]) + rest == kept + ([x] + rest)
    ensures (kept + []) + rest == WithoutId(kept + ([x] + rest), x.id)
  {
    WithoutIdMiddle(kept, x, rest);
    assert kept + [] == kept;
  }

  /** Deleting the snapshot at index `i` takes the list from StoppedAt(i) to StoppedAt(i + 1). */
  lemma DeleteAdvances(p: Policy, cutoff: int, snaps: seq<Snapshot>, i: nat)
    requires UniqueIds(snaps) && i < |snaps|
    ensures StoppedAt(p, cutoff, snaps, i + 1)
         == if Keeps(p, cutoff, i, snaps[i].created) then StoppedAt(p, cutoff, snaps, i)
            else WithoutId(StoppedAt(p, cutoff, snaps, i), snaps[i].id)
  {
    KeptFromNext(p, cutoff, snaps, i, 0);
    KeptFromWithin(p, cutoff, snaps[..i], 0);
    IdOnlyAt(snaps, i);
    var kept, x, rest := KeptFrom(p, cutoff, snaps[..i], 0), snaps[i], snaps[i + 1..];
    assert snaps[i..] == [x] + rest;
    Advance(kept, x, rest);
  }
}
