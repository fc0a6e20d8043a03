/** Lists of manifest entries: counting, filtering, and the in-place compaction
    both passes of the backup engine use. */
module Entries {
  import opened Basics

  function CountFiles(entries: seq<Entry>): nat {
    if entries == [] then 0
    else CountFiles(entries[..|entries| - 1]) + if entries[|entries| - 1].kind.FileKind? then 1 else 0
  }

  function SumSizes(entries: seq<Entry>): int {
    if entries == [] then 0
    else
      var e := entries[|entries| - 1];
      SumSizes(entries[..|entries| - 1]) + if e.kind.FileKind? then e.size else 0
  }

  /** The entries that satisfy the predicate, in order. */
  function KeepIf(entries: seq<Entry>, keep: Entry -> bool): (kept: seq<Entry>)
    ensures |kept| <= |entries|
  {
    if entries == [] then []
    else
      var rest, e := KeepIf(entries[..|entries| - 1], keep), entries[|entries| - 1];
      if keep(e) then rest + [e] else rest
  }

  lemma {:induction false} KeepIfMembers(entries: seq<Entry>, keep: Entry -> bool)
    ensures forall e :: e in KeepIf(entries, keep) <==> e in entries && keep(e)
  {
    if entries != [] {
      KeepIfMembers(entries[..|entries| - 1], keep);
      assert entries == entries[..|entries| - 1] + [entries[|entries| - 1]];
    }
  }

  lemma KeepIfAppend(entries: seq<Entry>, e: Entry, keep: Entry -> bool)
    ensures KeepIf(entries + [e], keep) == if keep(e) then KeepIf(entries, keep) + [e] else KeepIf(entries, keep)
    ensures CountFiles(entries + [e]) == CountFiles(entries) + if e.kind.FileKind? then 1 else 0
    ensures SumSizes(entries + [e]) == SumSizes(entries) + if e.kind.FileKind? then e.size else 0
  {
    assert (entries + [e])[..|entries|] == entries;
  }

  /** One more entry of a prefix. */
  lemma KeepIfNext(entries: seq<Entry>, i: nat, keep: Entry -> bool)
    requires i < |entries|
    ensures KeepIf(entries[..i + 1], keep)
         == if keep(entries[i]) then KeepIf(entries[..i], keep) + [entries[i]] else KeepIf(entries[..i], keep)
    ensures CountFiles(entries[..i + 1]) == CountFiles(entries[..i]) + if entries[i].kind.FileKind? then 1 else 0
    ensures SumSizes(entries[..i + 1])
         == SumSizes(entries[..i]) + if entries[i].kind.FileKind? then entries[i].size else 0
  {
    assert entries[..i + 1] == entries[..i] + [entries[i]];
    KeepIfAppend(entries[..i], entries[i], keep);
  }

  lemma {:induction false} KeepIfAll(entries: seq<Entry>, keep: Entry -> bool)
    requires forall i :: 0 <= i < |entries| ==> keep(entries[i])
    ensures KeepIf(entries, keep) == entries
  {
    if entries != [] {
      KeepIfAll(entries[..|entries| - 1], keep);
    }
  }

  /** What a filter keeps and what it drops, counted. */
  lemma {:induction false} KeepIfCounts(entries: seq<Entry>, keep: Entry -> bool, drop: Entry -> bool)
    requires forall e :: drop(e) <==> !keep(e)
    ensures CountFiles(KeepIf(entries, keep)) + CountFiles(KeepIf(entries, drop)) == CountFiles(entries)
    ensures SumSizes(KeepIf(entries, keep)) + SumSizes(KeepIf(entries, drop)) == SumSizes(entries)
  {
    if entries != [] {
      var k := |entries| - 1;
      var rest, e := entries[..k], entries[k];
      KeepIfCounts(rest, keep, drop);
      KeepIfAppend(KeepIf(rest, keep), e, keep);
      KeepIfAppend(KeepIf(rest, drop), e, drop);
    }
  }

  /** `for _, e := range entries { if !drop { kept = append(kept, e) } }` where
      `kept` is entries[:0]: reads and writes share one array, and the result is
      exactly the filter. */
  method Compact(buf: array<Entry>, drop: set<int>, ghost keep: Entry -> bool) returns (n: nat)
    requires forall i :: 0 <= i < buf.Length ==> (i in drop <==> !keep(buf[i]))
    modifies buf
    ensures n <= buf.Length && buf[..n] == KeepIf(old(buf[..]), keep)
  {
    n := 0;
    ghost var was, kept: seq<Entry> := buf[..], [];
    for i := 0 to buf.Length
      invariant n <= i && |kept| == n && forall k :: 0 <= k < n ==> buf[k] == kept[k]
      invariant kept == KeepIf(was[..i], keep)
      invariant forall k :: i <= k < buf.Length ==> buf[k] == was[k]
    {
      KeepIfNext(was, i, keep);
      if i !in drop {
        buf[n] := buf[i];
        n := n + 1;
        kept := kept + [was[i]];
      }
    }
    assert was[..buf.Length] == was && buf[..n] == kept;
  }
}
