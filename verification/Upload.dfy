/** uploadMissing: ask the server what it lacks, upload that with concurrent
    workers, ask again, and drop what is still missing. */
module Upload {
  import opened Basics
  import opened Entries
  import Tables
  import Vault

  // ---------- one file ----------

  /** What one attempt of uploadFile meets: whether the file opens, the hash and
      length of what was read, and whether the server accepted the put. */
  datatype Attempt = Attempt(opens: bool, got: string, bytes: nat, accepted: bool)

  datatype UploadOutcome = Failed | Uploaded(bytes: nat, hash: string)

  /** Attempts by number and by the hash the blob is put under. */
  type Attempts = (int, string) -> Attempt

  /** At most two attempts, the second under the hash read in the first. */
  function UploadResult(wanted: string, attempts: Attempts): UploadOutcome {
    var a := attempts(0, wanted);
    var b := attempts(1, a.got);
    if !a.opens then Failed
    else if a.accepted then Uploaded(a.bytes, a.got)
    else if a.got == wanted || !b.opens then Failed
    else if b.accepted then Uploaded(b.bytes, b.got)
    else Failed
  }

  method UploadFile(path: string, expectHash: string, attempts: Attempts) returns (r: UploadOutcome)
    ensures r == UploadResult(expectHash, attempts)
  {
    var wanted := expectHash;
    for attempt := 0 to 2
      invariant attempt == 0 ==> wanted == expectHash
      invariant attempt == 1 ==> wanted == attempts(0, expectHash).got
      invariant attempt > 0 ==>
                  var a := attempts(0, expectHash); a.opens && !a.accepted && a.got != expectHash
      invariant attempt > 1 ==>
                  var b := attempts(1, attempts(0, expectHash).got); b.opens && !b.accepted
    {
      var a := attempts(attempt, wanted);
      if !a.opens {
        return Failed;
      }
      if a.accepted {
        return Uploaded(a.bytes, a.got);
      }
      if a.got == wanted {
        return Failed;
      }
      wanted := a.got;
    }
    return Failed;
  }

  /** What a server's acceptance tells: the content read has the hash it was put under, or
      that hash was indexed already and the body was not looked at (see Vault.AfterPut). */
  ghost predicate Truthful(attempts: Attempts, indexed: string -> bool) {
    forall k, h :: attempts(k, h).accepted ==> attempts(k, h).got == h || indexed(h)
  }

  /** A returned hash was read in the accepted attempt.  It is the hash that attempt was put
      under unless the file had changed again and that hash was indexed already, in which
      case nothing was stored under the returned one. */
  lemma ReturnedHashMeans(wanted: string, attempts: Attempts, indexed: string -> bool)
    requires Truthful(attempts, indexed)
    ensures var r, a := UploadResult(wanted, attempts), attempts(0, wanted);
            var b := attempts(1, a.got);
            r.Uploaded? ==>
              if a.accepted then r.hash == a.got && r.bytes == a.bytes && (r.hash != wanted ==> indexed(wanted))
              else a.got != wanted && b.accepted && r.hash == b.got && r.bytes == b.bytes
                   && (r.hash != a.got ==> indexed(a.got))
  {
  }

  /** An accepted body is verified unless its hash was indexed already. */
  lemma AcceptanceIsTruthful(codec: Codec, t: Tables.Tables, hash: string, body: Bytes, f: Vault.PutFaults)
    requires Vault.AfterPut(codec, t, hash, body, f).1 == Vault.Accepted
    ensures Tables.Verified(codec, body, hash) || Tables.BlobId(t.active, hash) in t.blobs
  {
  }

  /** Uploading a file fails exactly when it cannot be opened, or its first put is rejected
      and it has not changed, cannot be opened again, or is rejected again. */
  lemma UploadFailsIff(wanted: string, attempts: Attempts)
    ensures var a := attempts(0, wanted);
            var b := attempts(1, a.got);
            UploadResult(wanted, attempts).Failed? <==>
            !a.opens || (!a.accepted && (a.got == wanted || !b.opens || !b.accepted))
  {
  }

  /** The outcomes of all files, by the hash to be uploaded. */
  function Outcomes(files: string -> Attempts): string -> UploadOutcome {
    h => UploadResult(h, files(h))
  }

  // ---------- asking the server ----------

  const BATCH := 1000

  /** The k-th check request: None is a failure, otherwise the hashes it lacks. */
  type Replies = (nat, seq<string>) -> Option<seq<string>>

  /** The server only names hashes it was asked about (see Vault.Absent). */
  ghost predicate Honest(reply: Replies) {
    forall k, asked :: reply(k, asked).Some? ==> forall h :: h in reply(k, asked).value ==> h in asked
  }

  function Batch(hashes: seq<string>, k: nat): seq<string>
    requires k * BATCH <= |hashes|
  {
    hashes[k * BATCH..if (k + 1) * BATCH > |hashes| then |hashes| else (k + 1) * BATCH]
  }

  predicate IsBatch(hashes: seq<string>, k: nat) {
    k * BATCH < |hashes|
  }

  /** The hashes are asked in order, a thousand at a time, each in just one request and none
      in an empty one. */
  lemma BatchesCover(hashes: seq<string>, i: nat, k: nat)
    requires i < |hashes| && k == i / 1000
    ensures IsBatch(hashes, k) && i - 1000 * k < |Batch(hashes, k)| && Batch(hashes, k)[i - 1000 * k] == hashes[i]
    ensures forall j: nat :: IsBatch(hashes, j) <==> 1000 * j < |hashes|
    ensures forall j: nat :: IsBatch(hashes, j) ==>
              |Batch(hashes, j)| == if 1000 * j + 1000 <= |hashes| then 1000 else |hashes| - 1000 * j
  {
  }

  ghost predicate ReportedPresent(reply: Replies, hashes: seq<string>, h: string) {
    exists k: nat :: IsBatch(hashes, k) && h in Batch(hashes, k)
                  && reply(k, Batch(hashes, k)).Some? && h !in reply(k, Batch(hashes, k)).value
  }

  ghost predicate ReportedMissing(reply: Replies, hashes: seq<string>, h: string) {
    exists k: nat :: IsBatch(hashes, k) && reply(k, Batch(hashes, k)).Some? && h in reply(k, Batch(hashes, k)).value
  }

  /** checkAllBlobs: fails exactly when some batch fails, and otherwise returns just
      what the server reported missing; every other hash asked was reported present. */
  method CheckAllBlobs(reply: Replies, hashes: seq<string>) returns (missing: Option<seq<string>>)
    requires Honest(reply)
    ensures missing.None? <==> exists k: nat :: IsBatch(hashes, k) && reply(k, Batch(hashes, k)).None?
    ensures missing.Some? ==> forall h :: h in missing.value <==> ReportedMissing(reply, hashes, h)
    ensures missing.Some? ==> forall h :: h in missing.value ==> h in hashes
    ensures missing.Some? ==> forall h :: h in hashes ==> h in missing.value || ReportedPresent(reply, hashes, h)
  {
    var found: seq<string> := [];
    var k := 0;
    while k * BATCH < |hashes|
      invariant 0 <= k
      invariant forall j: nat :: j < k ==> IsBatch(hashes, j) && reply(j, Batch(hashes, j)).Some?
      invariant forall h :: h in found ==> h in hashes && ReportedMissing(reply, hashes, h)
      invariant forall j: nat :: j < k && IsBatch(hashes, j) && reply(j, Batch(hashes, j)).Some? ==>
                  forall h :: h in reply(j, Batch(hashes, j)).value ==> h in found
      invariant forall i :: 0 <= i < |hashes| && i < k * BATCH ==>
                  hashes[i] in found || ReportedPresent(reply, hashes, hashes[i])
      decreases |hashes| - k * BATCH
    {
      var end := if (k + 1) * BATCH > |hashes| then |hashes| else (k + 1) * BATCH;
      var batch := hashes[k * BATCH..end];
      assert IsBatch(hashes, k) && batch == Batch(hashes, k);
      var m := reply(k, batch);
      if m.None? {
        return None;
      }
      forall i | k * BATCH <= i < end
        ensures hashes[i] in found + m.value || ReportedPresent(reply, hashes, hashes[i])
      {
        assert batch[i - k * BATCH] == hashes[i];
      }
      found := found + m.value;
      k := k + 1;
    }
    return Some(found);
  }

  /** The keys of a map or set, in an order the language leaves open. */
  method Keys(s: set<string>) returns (keys: seq<string>)
    ensures forall h :: h in keys <==> h in s
  {
    keys := [];
    var rest := s;
    while rest != {}
      invariant rest <= s && forall h :: h in keys <==> h in s - rest
      decreases rest
    {
      var h :| h in rest;
      keys, rest := keys + [h], rest - {h};
    }
  }

  // ---------- specification ----------

  function Members(s: seq<string>): set<string> {
    set h | h in s
  }

  predicate IsHashed(e: Entry) {
    e.kind.FileKind? && e.hash != ""
  }

  /** The first file entry with its hash: the one whose file is uploaded. */
  ghost predicate Represents(entries: seq<Entry>, i: int) {
    && 0 <= i < |entries| && IsHashed(entries[i])
    && forall j :: 0 <= j < i && IsHashed(entries[j]) ==> entries[j].hash != entries[i].hash
  }

  function UpTo(n: nat): (r: set<int>)
    ensures forall j :: j in r <==> 0 <= j < n
  {
    if n == 0 then {} else UpTo(n - 1) + {n - 1}
  }

  function NewHash(outcome: string -> UploadOutcome, h: string): string {
    if outcome(h).Uploaded? && outcome(h).hash != "" then outcome(h).hash else h
  }

  /** The entries once the blobs in `sent` have been uploaded: a file that changed
      meanwhile has its current hash, in its representative entry only. */
  ghost function Resent(entries: seq<Entry>, sent: set<string>, outcome: string -> UploadOutcome): (r: seq<Entry>)
    ensures |r| == |entries|
    ensures forall i :: 0 <= i < |entries| ==> r[i] == ResentAt(entries, sent, outcome, i)
  {
    seq(|entries|, i requires 0 <= i < |entries| => ResentAt(entries, sent, outcome, i))
  }

  ghost function ResentAt(entries: seq<Entry>, sent: set<string>, outcome: string -> UploadOutcome, i: int): Entry
    requires 0 <= i < |entries|
  {
    if Represents(entries, i) && entries[i].hash in sent
    then entries[i].(hash := NewHash(outcome, entries[i].hash)) else entries[i]
  }

  /** Bytes read for the uploads that have ended, among the first k. */
  ghost function SentBytes(missing: seq<string>, waiting: set<int>, outcome: string -> UploadOutcome, k: nat): nat
    requires k <= |missing|
  {
    if k == 0 then 0
    else
      SentBytes(missing, waiting, outcome, k - 1)
      + if k - 1 in waiting || outcome(missing[k - 1]).Failed? then 0 else outcome(missing[k - 1]).bytes
  }

  lemma {:induction false} OneMoreSent(
      missing: seq<string>, waiting: set<int>, outcome: string -> UploadOutcome, j: int, k: nat)
    requires k <= |missing| && j in waiting && 0 <= j < |missing|
    ensures SentBytes(missing, waiting - {j}, outcome, k) - SentBytes(missing, waiting, outcome, k)
         == if j < k && outcome(missing[j]).Uploaded? then outcome(missing[j]).bytes else 0
  {
    if k > 0 {
      OneMoreSent(missing, waiting, outcome, j, k - 1);
    }
  }

  lemma {:induction false} NothingSent(
      missing: seq<string>, waiting: set<int>, outcome: string -> UploadOutcome, k: nat)
    requires k <= |missing| && forall j :: 0 <= j < k ==> j in waiting
    ensures SentBytes(missing, waiting, outcome, k) == 0
  {
    if k > 0 {
      NothingSent(missing, waiting, outcome, k - 1);
    }
  }

  /** The final check's filter. */
  function StillThere(still: set<string>): Entry -> bool {
    (e: Entry) => !(e.kind.FileKind? && e.hash in still)
  }

  datatype Stats = Stats(total: int, bytes: int, skipped: int, uploaded: int)

  // ---------- the three passes ----------

  method Representatives(buf: array<Entry>) returns (byHash: map<string, int>)
    ensures forall h :: h in byHash ==> Represents(buf[..], byHash[h]) && buf[byHash[h]].hash == h
    ensures forall i :: 0 <= i < buf.Length && IsHashed(buf[i]) ==> buf[i].hash in byHash
  {
    byHash := map[];
    for i := 0 to buf.Length
      invariant forall h :: h in byHash ==>
                  0 <= byHash[h] < i && Represents(buf[..], byHash[h]) && buf[byHash[h]].hash == h
      invariant forall j :: 0 <= j < i && IsHashed(buf[j]) ==> buf[j].hash in byHash
    {
      if buf[i].kind.FileKind? && buf[i].hash != "" {
        if buf[i].hash !in byHash {
          assert Represents(buf[..], i);
          byHash := byHash[buf[i].hash := i];
        }
      }
    }
  }

  /** The workers, finishing in any order; each updates the shared array under the
      lock.  All of them run to the end even when one fails. */
  method RunWorkers(buf: array<Entry>, byHash: map<string, int>, missing: seq<string>, files: string -> Attempts)
    returns (failed: bool, uploaded: int)
    requires forall h :: h in byHash ==> Represents(buf[..], byHash[h]) && buf[byHash[h]].hash == h
    requires forall h :: h in missing ==> h in byHash
    modifies buf
    ensures failed <==> exists h :: h in missing && Outcomes(files)(h).Failed?
    ensures buf[..] == Resent(old(buf[..]), Members(missing), Outcomes(files))
    ensures uploaded == SentBytes(missing, {}, Outcomes(files), |missing|)
  {
    failed, uploaded := false, 0;
    ghost var outcome := Outcomes(files);
    ghost var was := buf[..];
    var waiting := UpTo(|missing|);
    NothingSent(missing, waiting, outcome, |missing|);
    ghost var sent: set<string> := {};
    while waiting != {}
      invariant waiting <= UpTo(|missing|)
      invariant forall h :: h in sent ==> h in missing
      invariant forall j :: 0 <= j < |missing| && j !in waiting ==> missing[j] in sent
      invariant failed <==> exists h :: h in sent && outcome(h).Failed?
      invariant uploaded == SentBytes(missing, waiting, outcome, |missing|)
      invariant forall i :: 0 <= i < buf.Length ==> buf[i] == ResentAt(was, sent, outcome, i)
      decreases waiting
    {
      var j :| j in waiting;
      OneMoreSent(missing, waiting, outcome, j, |missing|);
      waiting := waiting - {j};
      var h := missing[j];
      var idx := byHash[h];
      OneRepresentative(was, idx);
      var r := UploadFile(buf[idx].path, h, files(h));
      assert r == outcome(h);
      match r {
        case Failed =>
          failed := true;
        case Uploaded(n, newHash) =>
          if newHash != "" && newHash != h {
            buf[idx] := buf[idx].(hash := newHash);
          }
          uploaded := uploaded + n;
      }
      sent := sent + {h};
    }
    assert sent == Members(missing);
  }

  lemma OneRepresentative(entries: seq<Entry>, i: int)
    requires Represents(entries, i)
    ensures forall j :: Represents(entries, j) && entries[j].hash == entries[i].hash ==> j == i
  {
  }

  /** What the last loop has kept of the first entries, and the count and bytes of
      what it has dropped. */
  ghost predicate DroppedUpTo(was: seq<Entry>, i: nat, kept: seq<Entry>, still: set<string>, gone: int, lost: int)
    requires i <= |was|
  {
    && kept == KeepIf(was[..i], StillThere(still))
    && gone == CountFiles(was[..i]) - CountFiles(kept)
    && lost == SumSizes(was[..i]) - SumSizes(kept)
  }

  lemma DropNext(was: seq<Entry>, i: nat, kept: seq<Entry>, still: set<string>, gone: int, lost: int)
    requires i < |was| && DroppedUpTo(was, i, kept, still, gone, lost)
    ensures if was[i].kind.FileKind? && was[i].hash in still
            then DroppedUpTo(was, i + 1, kept, still, gone + 1, lost + was[i].size)
            else DroppedUpTo(was, i + 1, kept + [was[i]], still, gone, lost)
  {
    KeepIfNext(was, i, StillThere(still));
    KeepIfAppend(kept, was[i], StillThere(still));
  }

  lemma DroppedAll(was: seq<Entry>, kept: seq<Entry>, still: set<string>, gone: int, lost: int)
    requires DroppedUpTo(was, |was|, kept, still, gone, lost)
    ensures kept == KeepIf(was, StillThere(still))
    ensures gone == CountFiles(was) - CountFiles(kept) && lost == SumSizes(was) - SumSizes(kept)
  {
    assert was[..|was|] == was;
  }

  /** The last loop: entries[:0] again, this time by hash, with the statistics. */
  method DropMissing(buf: array<Entry>, still: set<string>, stats: Stats)
    returns (n: nat, after: Stats, ghost kept: seq<Entry>)
    modifies buf
    ensures n <= buf.Length && buf[..n] == kept == KeepIf(old(buf[..]), StillThere(still))
    ensures after.total == stats.total - CountFiles(old(buf[..])) + CountFiles(kept)
    ensures after.bytes == stats.bytes - SumSizes(old(buf[..])) + SumSizes(kept)
    ensures after.skipped == stats.skipped + (stats.total - after.total) && after.uploaded == stats.uploaded
  {
    n, after, kept := 0, stats, [];
    ghost var was := buf[..];
    ghost var gone, lost := 0, 0;
    for i := 0 to buf.Length
      invariant n <= i && |kept| == n && forall k :: 0 <= k < n ==> buf[k] == kept[k]
      invariant forall k :: i <= k < buf.Length ==> buf[k] == was[k]
      invariant DroppedUpTo(was, i, kept, still, gone, lost)
      invariant after == Stats(stats.total - gone, stats.bytes - lost, stats.skipped + gone, stats.uploaded)
    {
      DropNext(was, i, kept, still, gone, lost);
      var e := buf[i];
      if e.kind.FileKind? && e.hash in still {
        after := after.(skipped := after.skipped + 1, total := after.total - 1, bytes := after.bytes - e.size);
        gone, lost := gone + 1, lost + e.size;
      } else {
        buf[n] := e;
        n := n + 1;
        kept := kept + [e];
      }
    }
    DroppedAll(was, kept, still, gone, lost);
    assert buf[..n] == kept;
  }

  // ---------- the whole of uploadMissing ----------

  /** The hashes left for the final check. */
  method HashesOf(buf: array<Entry>) returns (hashes: set<string>)
    ensures hashes == FileHashes(buf[..])
  {
    hashes := {};
    for i := 0 to buf.Length
      invariant hashes == set k | 0 <= k < i && IsHashed(buf[k]) :: buf[k].hash
    {
      if buf[i].kind.FileKind? && buf[i].hash != "" {
        hashes := hashes + {buf[i].hash};
      }
    }
  }

  /** The first check asked `keys`, and `sent` is what it reported missing. */
  ghost predicate FirstCheck(before: seq<Entry>, first: Replies, sent: seq<string>, keys: seq<string>) {
    && Members(keys) == FileHashes(before)
    && (forall h :: h in sent <==> ReportedMissing(first, keys, h))
    && (forall h :: h in keys ==> h in sent || ReportedPresent(first, keys, h))
  }

  /** What a nil return means, for the entries before and after: `sent` was missing
      at the first check and `still` at the final one, which asked `asked`. */
  ghost predicate UploadedAll(before: seq<Entry>, after: seq<Entry>, first: Replies, last: Replies,
    outcome: string -> UploadOutcome, sent: seq<string>, asked: seq<string>, still: set<string>)
  {
    && (exists keys :: FirstCheck(before, first, sent, keys))
    && (forall h :: h in sent ==> h in FileHashes(before) && outcome(h).Uploaded?)
    && after == KeepIf(Resent(before, Members(sent), outcome), StillThere(still))
    && still <= Members(asked) && Members(asked) == FileHashes(Resent(before, Members(sent), outcome))
    && forall h :: h in asked ==> h in still || ReportedPresent(last, asked, h)
  }

  /** The last part: ask about every remaining hash and drop what is missing. */
  method FinalCheck(buf: array<Entry>, last: Replies, stats: Stats)
    returns (n: nat, result: Option<Stats>, ghost asked: seq<string>, ghost still: set<string>)
    requires Honest(last)
    modifies buf
    ensures n <= buf.Length && Members(asked) == FileHashes(old(buf[..]))
    ensures result.None? <==> exists k: nat :: IsBatch(asked, k) && last(k, Batch(asked, k)).None?
    ensures result.Some? ==> still <= Members(asked)
    ensures result.Some? ==> forall h :: h in asked ==> h in still || ReportedPresent(last, asked, h)
    ensures result.Some? ==> forall h :: h in still <==> ReportedMissing(last, asked, h)
    ensures result.Some? ==> buf[..n] == KeepIf(old(buf[..]), StillThere(still))
    ensures result.Some? ==> result.value.total == stats.total - CountFiles(old(buf[..])) + CountFiles(buf[..n])
    ensures result.Some? ==> result.value.bytes == stats.bytes - SumSizes(old(buf[..])) + SumSizes(buf[..n])
    ensures result.Some? ==> result.value.skipped == stats.skipped + stats.total - result.value.total
    ensures result.Some? ==> result.value.uploaded == stats.uploaded
  {
    n, result, still := buf.Length, None, {};
    var hashes := HashesOf(buf);
    var final := Keys(hashes);
    asked := final;
    var stillMissing := CheckAllBlobs(last, final);
    if stillMissing.None? {
      return;
    }
    var missSet := set h | h in stillMissing.value;
    still := missSet;
    var after := stats;
    if |stillMissing.value| > 0 {
      ghost var kept;
      n, after, kept := DropMissing(buf, missSet, stats);
    } else {
      KeepIfAll(buf[..], StillThere(still));
    }
    result := Some(after);
  }

  /** On an error the caller gives up; the entries may have been changed by then. */
  method UploadMissing(buf: array<Entry>, first: Replies, last: Replies, files: string -> Attempts, stats: Stats)
    returns (n: nat, result: Option<Stats>, ghost sent: seq<string>, ghost asked: seq<string>, ghost still: set<string>)
    requires Honest(first) && Honest(last)
    modifies buf
    ensures n <= buf.Length
    ensures result.Some? ==> UploadedAll(old(buf[..]), buf[..n], first, last, Outcomes(files), sent, asked, still)
    ensures result.Some? && stats.total == CountFiles(old(buf[..])) && stats.bytes == SumSizes(old(buf[..])) ==>
              result.value.total == CountFiles(buf[..n]) && result.value.bytes == SumSizes(buf[..n])
    ensures result.Some? ==> result.value.skipped == stats.skipped + stats.total - result.value.total
    ensures result.Some? ==> result.value.uploaded == SentBytes(sent, {}, Outcomes(files), |sent|)
  {
    n, result, sent, asked, still := buf.Length, None, [], [], {};
    ghost var was := buf[..];
    var byHash := Representatives(buf);
    var keys := Keys(byHash.Keys);
    var missing := CheckAllBlobs(first, keys);
    if missing.None? {
      return;
    }
    sent := missing.value;
    assert FirstCheck(was, first, sent, keys);
    var failed, uploaded := RunWorkers(buf, byHash, missing.value, files);
    if failed {
      return;
    }
    ResentCounts(was, Members(sent), Outcomes(files));
    n, result, asked, still := FinalCheck(buf, last, stats.(uploaded := uploaded));
  }

  /** A new hash changes neither the count nor the sizes. */
  lemma {:induction false} ResentCounts(entries: seq<Entry>, sent: set<string>, outcome: string -> UploadOutcome)
    ensures CountFiles(Resent(entries, sent, outcome)) == CountFiles(entries)
    ensures SumSizes(Resent(entries, sent, outcome)) == SumSizes(entries)
  {
    SameShapeCounts(entries, Resent(entries, sent, outcome));
  }

  lemma {:induction false} SameShapeCounts(a: seq<Entry>, b: seq<Entry>)
    requires |a| == |b| && forall i :: 0 <= i < |a| ==> b[i] == a[i].(hash := b[i].hash)
    ensures CountFiles(a) == CountFiles(b) && SumSizes(a) == SumSizes(b)
  {
    if a != [] {
      SameShapeCounts(a[..|a| - 1], b[..|b| - 1]);
    }
  }

  /** Every file entry that is left has a hash, and the server reported it present at
      the final check. */
  lemma EveryHashReportedPresent(before: seq<Entry>, after: seq<Entry>, first: Replies, last: Replies,
    outcome: string -> UploadOutcome, sent: seq<string>, asked: seq<string>, still: set<string>, e: Entry)
    requires UploadedAll(before, after, first, last, outcome, sent, asked, still)
    requires AllFilesHashed(before) && e in after && e.kind.FileKind?
    ensures IsHashed(e) && ReportedPresent(last, asked, e.hash)
  {
    var all := Resent(before, Members(sent), outcome);
    KeepIfMembers(all, StillThere(still));
    var i :| 0 <= i < |all| && all[i] == e;
    assert e.hash in FileHashes(all);
    assert e.hash in Members(asked);
  }

  /** The result is a subsequence of the input, in order, whose hashes differ only in
      the representative entry of a hash that was sent. */
  ghost predicate Picks(before: seq<Entry>, after: seq<Entry>, sent: set<string>, at: seq<nat>) {
    && |at| == |after|
    && (forall k :: 0 <= k < |at| ==> at[k] < |before|)
    && (forall j, k :: 0 <= j < k < |at| ==> at[j] < at[k])
    && forall k :: 0 <= k < |at| ==>
         after[k] == before[at[k]].(hash := after[k].hash)
         && (after[k] != before[at[k]] ==> Represents(before, at[k]) && before[at[k]].hash in sent)
  }

  lemma {:induction false} KeptAt(entries: seq<Entry>, keep: Entry -> bool) returns (at: seq<nat>)
    ensures |at| == |KeepIf(entries, keep)|
    ensures forall k :: 0 <= k < |at| ==> at[k] < |entries| && entries[at[k]] == KeepIf(entries, keep)[k]
    ensures forall j, k :: 0 <= j < k < |at| ==> at[j] < at[k]
    ensures forall i :: 0 <= i < |entries| ==> (i in at <==> keep(entries[i]))
  {
    at := [];
    if entries != [] {
      var k := |entries| - 1;
      at := KeptAt(entries[..k], keep);
      if keep(entries[k]) {
        at := at + [k];
      }
    }
  }

  lemma OrderPreserved(before: seq<Entry>, after: seq<Entry>, first: Replies, last: Replies,
    outcome: string -> UploadOutcome, sent: seq<string>, asked: seq<string>, still: set<string>) returns (at: seq<nat>)
    requires UploadedAll(before, after, first, last, outcome, sent, asked, still)
    ensures Picks(before, after, Members(sent), at)
  {
    at := KeptAt(Resent(before, Members(sent), outcome), StillThere(still));
  }

  /** The i-th entry after the upload: the first file entry with a hash that was sent has
      the hash its upload came back with, every other entry its own; all else is as before.
      It is among the entries that are left exactly when it is no file, or that hash was not
      missing at the final check. */
  ghost predicate EndsAs(before: seq<Entry>, after: seq<Entry>, at: seq<nat>, outcome: string -> UploadOutcome,
    sent: seq<string>, still: set<string>, i: nat)
    requires i < |before| && |at| == |after|
  {
    var e := before[i];
    var first := forall j :: 0 <= j < i ==> !(before[j].kind.FileKind? && before[j].hash == e.hash);
    var changed := e.kind.FileKind? && first && e.hash in sent && outcome(e.hash).Uploaded?
                   && outcome(e.hash).hash != "";
    var hash := if changed then outcome(e.hash).hash else e.hash;
    && (i in at <==> !e.kind.FileKind? || hash !in still)
    && forall k :: 0 <= k < |at| && at[k] == i ==> after[k] == e.(hash := hash)
  }

  /** What becomes of each single entry: the hash of a file that changed while it was
      uploaded is recorded, and nothing is dropped but files that are still missing. */
  lemma EntriesAfterUpload(before: seq<Entry>, after: seq<Entry>, first: Replies, last: Replies,
    outcome: string -> UploadOutcome, sent: seq<string>, asked: seq<string>, still: set<string>) returns (at: seq<nat>)
    requires UploadedAll(before, after, first, last, outcome, sent, asked, still)
    ensures |at| == |after| && forall j, k :: 0 <= j < k < |at| ==> at[j] < at[k]
    ensures forall k :: 0 <= k < |at| ==> at[k] < |before|
    ensures forall i :: 0 <= i < |before| ==> EndsAs(before, after, at, outcome, sent, still, i)
  {
    var all := Resent(before, Members(sent), outcome);
    at := KeptAt(all, StillThere(still));
    forall i | 0 <= i < |before|
      ensures EndsAs(before, after, at, outcome, sent, still, i)
    {
      if before[i].kind.FileKind? && before[i].hash in sent {
        HashIsNotEmpty(before, before[i].hash);
        assert Represents(before, i) <==>
               forall j :: 0 <= j < i ==> !(before[j].kind.FileKind? && before[j].hash == before[i].hash);
      }
    }
  }

  lemma HashIsNotEmpty(entries: seq<Entry>, h: string)
    requires h in FileHashes(entries)
    ensures h != ""
  {
  }

  /** When no file changed during the upload, the entries that are left are the
      scanned ones, unchanged. */
  lemma UnchangedFilesKeepHashes(before: seq<Entry>, after: seq<Entry>, first: Replies, last: Replies,
    outcome: string -> UploadOutcome, sent: seq<string>, asked: seq<string>, still: set<string>)
    requires UploadedAll(before, after, first, last, outcome, sent, asked, still)
    requires forall h :: h in sent ==> NewHash(outcome, h) == h
    ensures after == KeepIf(before, StillThere(still)) && forall e :: e in after ==> e in before
  {
    assert Resent(before, Members(sent), outcome) == before;
    KeepIfMembers(before, StillThere(still));
  }

  /** The manifest's counts are the ones scan reported, which is what the commit
      sends, exactly when the final check dropped nothing. */
  lemma {:induction false} CommitCountsIff(before: seq<Entry>, after: seq<Entry>, first: Replies, last: Replies,
    outcome: string -> UploadOutcome, sent: seq<string>, asked: seq<string>, still: set<string>)
    requires UploadedAll(before, after, first, last, outcome, sent, asked, still)
    ensures CountFiles(before) == CountFiles(after) <==> still == {}
    ensures still == {} ==> SumSizes(before) == SumSizes(after)
    ensures CountFiles(after) <= CountFiles(before)
  {
    var all := Resent(before, Members(sent), outcome);
    ResentCounts(before, Members(sent), outcome);
    var gone := (e: Entry) => e.kind.FileKind? && e.hash in still;
    KeepIfCounts(all, StillThere(still), gone);
    KeepIfMembers(all, gone);
    var dropped := KeepIf(all, gone);
    assert forall e :: e in dropped ==> gone(e);
    CountsAll(dropped);
    if still == {} {
      KeepIfAll(all, StillThere(still));
    } else {
      var h :| h in still;
      assert h in FileHashes(all);
      var i :| 0 <= i < |all| && IsHashed(all[i]) && all[i].hash == h;
      assert all[i] in dropped;
    }
  }

  lemma {:induction false} CountsAll(entries: seq<Entry>)
    requires forall e :: e in entries ==> e.kind.FileKind?
    ensures CountFiles(entries) == |entries|
  {
    if entries != [] {
      CountsAll(entries[..|entries| - 1]);
    }
  }

  /** A server that answers from its tables: to report a hash present is to have it
      indexed when that batch was answered. */
  lemma PresentMeansIndexed(
      reply: Replies, tables: nat -> Tables.Tables, hashes: seq<string>, h: string) returns (k: nat)
    requires forall j, asked :: reply(j, asked).Some? ==> reply(j, asked).value == Vault.Absent(tables(j), asked)
    requires ReportedPresent(reply, hashes, h)
    ensures IsBatch(hashes, k) && Tables.BlobId(tables(k).active, h) in tables(k).blobs
  {
    k :| IsBatch(hashes, k) && h in Batch(hashes, k)
       && reply(k, Batch(hashes, k)).Some? && h !in reply(k, Batch(hashes, k)).value;
  }
}
