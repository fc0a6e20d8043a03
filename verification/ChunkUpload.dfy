/** Uploading a spooled file in ranges, with retries, to a range-addressed receiver. */
module ChunkUpload {
  import opened Basics

  datatype Vendor = Drive | OneDrive

  /** Bytes per range, and the grain both APIs require of every range but the last. */
  function ChunkSize(v: Vendor): nat {
    if v.Drive? then 8 * 1024 * 1024 else 10 * 1024 * 1024
  }

  function Grain(v: Vendor): nat {
    if v.Drive? then 256 * 1024 else 320 * 1024
  }

  // ---------- one request and its retries ----------

  /** One attempt: an HTTP status (0 when the request itself fails), how much of a
      refused range the receiver kept anyway, and whether the wait after it is cancelled. */
  datatype Answer = Answer(status: int, kept: nat, cancelled: bool)

  /** Answers by range start and attempt. */
  type Net = (int, int) -> Answer

  predicate Retryable(status: int) {
    status in {429, 500, 502, 503, 504}
  }

  /** Drive answers 308 between ranges and 2xx at the end; OneDrive any 2xx. */
  predicate Accepts(v: Vendor, last: bool, status: int) {
    match v
    case Drive => if last then status / 100 == 2 else status == 308
    case OneDrive => status / 100 == 2
  }

  const MAX_ATTEMPTS := 4

  /** retry, from one attempt on: accepted or not, and the attempts made. */
  function Retried(v: Vendor, last: bool, net: Net, start: int, attempt: nat): (bool, nat)
    decreases MAX_ATTEMPTS - attempt
  {
    var a := net(start, attempt);
    if Accepts(v, last, a.status) then (true, attempt + 1)
    else if !Retryable(a.status) || attempt + 1 >= MAX_ATTEMPTS || a.cancelled then (false, attempt + 1)
    else Retried(v, last, net, start, attempt + 1)
  }

  /** The retries end well exactly when one of the four attempts is accepted and all
      before it were transient failures whose wait was not cancelled. */
  lemma {:induction false} RetriedIff(v: Vendor, last: bool, net: Net, start: int, attempt: nat)
    requires attempt < MAX_ATTEMPTS
    ensures attempt < Retried(v, last, net, start, attempt).1 <= MAX_ATTEMPTS
    ensures Retried(v, last, net, start, attempt).0 <==>
            exists k :: attempt <= k < MAX_ATTEMPTS && Accepts(v, last, net(start, k).status)
                     && forall j :: attempt <= j < k ==> Retryable(net(start, j).status) && !net(start, j).cancelled
    decreases MAX_ATTEMPTS - attempt
  {
    var a := net(start, attempt);
    if !Accepts(v, last, a.status) && Retryable(a.status) && attempt + 1 < MAX_ATTEMPTS && !a.cancelled {
      RetriedIff(v, last, net, start, attempt + 1);
    }
  }

  /** What the first answer to a range comes to.  Drive accepts a range but the last with
      308, everything else is accepted with a status from 200 to 299; only 429 and the
      server errors 500, 502, 503 and 504 are tried again. */
  lemma FirstAnswer(v: Vendor, last: bool, net: Net, start: int)
    ensures var a, r := net(start, 0), Retried(v, last, net, start, 0);
            var accepted := if v.Drive? && !last then a.status == 308 else 200 <= a.status < 300;
            var transient := a.status == 429 || a.status == 500 || 502 <= a.status <= 504;
            && (r == (true, 1) <==> accepted)
            && (r == (false, 1) <==> !accepted && (!transient || a.cancelled))
            && (r.1 > 1 <==> !accepted && transient && !a.cancelled)
  {
    RetriedIff(v, last, net, start, 1);
  }

  /** A receiver that stays unavailable is asked four times. */
  lemma FourAttempts(v: Vendor, last: bool, net: Net, start: int)
    requires forall k :: net(start, k).status == 503 && !net(start, k).cancelled
    ensures Retried(v, last, net, start, 0) == (false, 4)
  {
    assert Retried(v, last, net, start, 3) == (false, 4);
    assert Retried(v, last, net, start, 2) == Retried(v, last, net, start, 3);
    assert Retried(v, last, net, start, 1) == Retried(v, last, net, start, 2);
  }

  // ---------- the ranges ----------

  /** A half-open range of bytes. */
  datatype Range = Range(start: nat, end: nat)

  function End(v: Vendor, offset: nat, length: nat): (end: nat)
    ensures offset < length ==> offset < end <= length
  {
    if offset + ChunkSize(v) > length then length else offset + ChunkSize(v)
  }

  /** The ranges a file of this length is sent in, from one offset on. */
  function Ranges(v: Vendor, offset: nat, length: nat): seq<Range>
    decreases length - offset
  {
    if offset >= length then []
    else [Range(offset, End(v, offset, length))] + Ranges(v, End(v, offset, length), length)
  }

  /** Contiguous, disjoint, and covering exactly [offset, length). */
  ghost predicate Tiles(r: seq<Range>, offset: nat, length: nat) {
    && (offset < length ==> r != [] && r[0].start == offset && r[|r| - 1].end == length)
    && (forall i :: 0 <= i < |r| ==> r[i].start < r[i].end)
    && (forall i :: 0 <= i < |r| - 1 ==> r[i].end == r[i + 1].start)
  }

  /** No longer than a chunk, and all but the last are whole multiples of what the
      API demands. */
  ghost predicate Chunked(v: Vendor, r: seq<Range>) {
    && (forall i :: 0 <= i < |r| ==> r[i].end - r[i].start <= ChunkSize(v) && r[i].start % Grain(v) == 0)
    && (forall i :: 0 <= i < |r| - 1 ==> (r[i].end - r[i].start) % Grain(v) == 0)
  }

  lemma OneMoreTile(first: Range, rest: seq<Range>, length: nat)
    requires Tiles(rest, first.end, length) && first.start < first.end < length
    ensures Tiles([first] + rest, first.start, length)
  {
    var r := [first] + rest;
    assert forall i :: 0 < i < |r| ==> r[i] == rest[i - 1];
  }

  lemma OneMoreChunk(v: Vendor, first: Range, rest: seq<Range>)
    requires Chunked(v, rest)
    requires first.end - first.start == ChunkSize(v) && first.start % Grain(v) == 0
    ensures Chunked(v, [first] + rest)
  {
    assert ChunkSize(v) % Grain(v) == 0;
    var r := [first] + rest;
    assert forall i :: 0 < i < |r| ==> r[i] == rest[i - 1];
  }

  /** The ranges tile the file in chunks. */
  lemma {:induction false} RangesTile(v: Vendor, offset: nat, length: nat)
    requires offset % Grain(v) == 0 && offset <= length
    ensures Tiles(Ranges(v, offset, length), offset, length) && Chunked(v, Ranges(v, offset, length))
    decreases length - offset
  {
    if offset < length {
      var end := End(v, offset, length);
      if end < length {
        assert end % Grain(v) == 0;
        RangesTile(v, end, length);
        OneMoreTile(Range(offset, end), Ranges(v, end, length), length);
        OneMoreChunk(v, Range(offset, end), Ranges(v, end, length));
      } else {
        assert Ranges(v, end, length) == [];
        assert Ranges(v, offset, length) == [Range(offset, end)];
      }
    }
  }

  /** All but the last are of that size, and the last ends the file. */
  ghost predicate AllFull(r: seq<Range>, size: nat, length: nat) {
    && (forall i :: 0 <= i < |r| - 1 ==> r[i].end == r[i].start + size)
    && (r != [] ==> r[|r| - 1].end == length <= r[|r| - 1].start + size)
  }

  lemma OneMoreFull(first: Range, rest: seq<Range>, size: nat, length: nat)
    requires AllFull(rest, size, length) && rest != [] && first.end == first.start + size
    ensures AllFull([first] + rest, size, length)
  {
    var r := [first] + rest;
    assert forall i :: 0 < i < |r| ==> r[i] == rest[i - 1];
  }

  /** Every range but the last is 8 MiB long for Drive and 10 MiB for OneDrive. */
  lemma {:induction false} RangesAreFull(v: Vendor, offset: nat, length: nat)
    ensures AllFull(Ranges(v, offset, length), if v.Drive? then 8388608 else 10485760, length)
    decreases length - offset
  {
    if offset < length {
      var end := End(v, offset, length);
      RangesAreFull(v, end, length);
      if end < length {
        OneMoreFull(Range(offset, end), Ranges(v, end, length), if v.Drive? then 8388608 else 10485760, length);
      } else {
        assert Ranges(v, end, length) == [];
        assert Ranges(v, offset, length) == [Range(offset, end)];
      }
    }
  }

  lemma RangesNext(v: Vendor, done: seq<Range>, offset: nat, length: nat)
    requires offset < length
    ensures var end := End(v, offset, length);
            done + Ranges(v, offset, length) == (done + [Range(offset, end)]) + Ranges(v, end, length)
    ensures done < done + Ranges(v, offset, length)
  {
  }

  // ---------- the loop ----------

  /** What the receiver holds agrees with the file. */
  ghost predicate Agrees(held: map<int, byte>, content: Bytes) {
    forall i :: i in held ==> 0 <= i < |content| && held[i] == content[i]
  }

  ghost predicate Holds(held: map<int, byte>, from: int, to: int) {
    forall i :: from <= i < to ==> i in held
  }

  function Keep(held: map<int, byte>, chunk: Bytes, start: nat, n: nat): (r: map<int, byte>)
    requires n <= |chunk|
    ensures forall i :: i in r <==> i in held || start <= i < start + n
    ensures forall i :: i in r ==> r[i] == if start <= i < start + n then chunk[i - start] else held[i]
  {
    if n == 0 then held else Keep(held, chunk, start, n - 1)[start + n - 1 := chunk[n - 1]]
  }

  lemma KeepTwice(held: map<int, byte>, chunk: Bytes, start: nat, m: nat, n: nat)
    requires m <= |chunk| && n <= |chunk|
    ensures Keep(Keep(held, chunk, start, m), chunk, start, n) == Keep(held, chunk, start, if m > n then m else n)
  {
    var x, y := Keep(Keep(held, chunk, start, m), chunk, start, n), Keep(held, chunk, start, if m > n then m else n);
    assert x.Keys == y.Keys;
    assert x == y;
  }

  lemma KeepAgrees(held: map<int, byte>, content: Bytes, start: nat, end: nat, kept: nat)
    requires Agrees(held, content) && start <= end <= |content| && kept <= end - start
    ensures Agrees(Keep(held, content[start..end], start, kept), content)
    ensures Holds(held, 0, start) ==> Holds(Keep(held, content[start..end], start, kept), 0, start + kept)
  {
  }

  /** An upload session: the receiver's bytes, and the ranges it has accepted. */
  class Session {
    var held: map<int, byte>
    var accepted: seq<Range>
    var sends: nat

    /** One range, with its retries; refused attempts may still leave some bytes. */
    method SendRange(v: Vendor, chunk: Bytes, start: nat, last: bool, net: Net) returns (ok: bool, ghost kept: nat)
      modifies this
      ensures (ok, sends - old(sends)) == Retried(v, last, net, start, 0)
      ensures accepted == if ok then old(accepted) + [Range(start, start + |chunk|)] else old(accepted)
      ensures kept <= |chunk| && (ok ==> kept == |chunk|) && held == Keep(old(held), chunk, start, kept)
    {
      ok, kept := false, 0;
      for attempt := 0 to MAX_ATTEMPTS
        invariant accepted == old(accepted) && sends == old(sends) + attempt && !ok
        invariant Retried(v, last, net, start, 0)
               == if attempt < MAX_ATTEMPTS then Retried(v, last, net, start, attempt) else (false, attempt)
        invariant kept <= |chunk| && held == Keep(old(held), chunk, start, kept)
      {
        var a := net(start, attempt);
        sends := sends + 1;
        if Accepts(v, last, a.status) {
          KeepTwice(old(held), chunk, start, kept, |chunk|);
          held := Keep(held, chunk, start, |chunk|);
          accepted := accepted + [Range(start, start + |chunk|)];
          return true, |chunk|;
        }
        var n := if a.kept < |chunk| then a.kept else |chunk|;
        KeepTwice(old(held), chunk, start, kept, n);
        held := Keep(held, chunk, start, n);
        kept := if kept > n then kept else n;
        if !Retryable(a.status) {
          return;
        }
        if attempt == MAX_ATTEMPTS - 1 {
          break;
        }
        if a.cancelled {
          return;
        }
      }
    }

    /** The whole upload of a spooled file.  What the receiver holds always agrees with
        the file; on success it is the whole file. */
    method SendFile(v: Vendor, content: Bytes, net: Net) returns (ok: bool)
      requires held == map[] && accepted == []
      modifies this
      ensures Agrees(held, content)
      ensures ok ==> Holds(held, 0, |content|)
      ensures content != [] ==> accepted <= Ranges(v, 0, |content|) && (ok <==> accepted == Ranges(v, 0, |content|))
      ensures content != [] ==> sends <= old(sends) + MAX_ATTEMPTS * (|accepted| + if ok then 0 else 1)
      ensures content == [] ==> ok == (v.OneDrive? || Retried(v, true, net, 0, 0).0)
    {
      if v.Drive? && |content| == 0 {
        ghost var kept;
        ok, kept := SendRange(v, [], 0, true, net);
      } else {
        ok := SendRanges(v, content, net);
      }
    }

    method SendRanges(v: Vendor, content: Bytes, net: Net) returns (ok: bool)
      requires held == map[] && accepted == []
      modifies this
      ensures Agrees(held, content) && (ok ==> Holds(held, 0, |content|))
      ensures accepted <= Ranges(v, 0, |content|) && (ok <==> accepted == Ranges(v, 0, |content|))
      ensures sends <= old(sends) + MAX_ATTEMPTS * (|accepted| + if ok then 0 else 1)
    {
      var size, offset := |content|, 0;
      while offset < size
        invariant 0 <= offset <= size
        invariant accepted + Ranges(v, offset, size) == Ranges(v, 0, size)
        invariant Agrees(held, content) && Holds(held, 0, offset)
        invariant sends <= old(sends) + MAX_ATTEMPTS * |accepted|
      {
        var end := End(v, offset, size);
        var chunk := content[offset..end];
        var last := end >= size;
        ghost var was, kept := held, 0;
        RetriedIff(v, last, net, offset, 0);
        RangesNext(v, accepted, offset, size);
        ok, kept := SendRange(v, chunk, offset, last, net);
        KeepAgrees(was, content, offset, end, kept);
        if !ok {
          return;
        }
        offset := end;
      }
      return true;
    }
  }
}
