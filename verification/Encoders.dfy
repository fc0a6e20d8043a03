/** Encoders for requests to storage providers: percent-encoding of S3 paths, and
    quoting in Drive queries.  Strings are bytes, as in the Go code. */
module Encoders {
  import opened Basics

  const SLASH: byte := 47
  const PERCENT: byte := 37
  const QUOTE: byte := 39
  const BACKSLASH: byte := 92

  // ---------- percent-encoding ----------

  /** The unreserved characters of RFC 3986, section 2.3. */
  predicate Unreserved(c: byte) {
    || 65 <= c <= 90 || 97 <= c <= 122 || 48 <= c <= 57
    || c == 45 || c == 95 || c == 46 || c == 126
  }

  function HexDigit(d: byte): (c: byte)
    requires d < 16
    ensures 48 <= c <= 57 || 65 <= c <= 70
  {
    if d < 10 then 48 + d else 55 + d
  }

  function EscapeByte(c: byte): Bytes {
    if Unreserved(c) then [c] else [PERCENT, HexDigit(c / 16), HexDigit(c % 16)]
  }

  function Escape(s: Bytes): Bytes {
    if s == [] then [] else EscapeByte(s[0]) + Escape(s[1..])
  }

  lemma EscapeNext(s: Bytes, i: nat, done: Bytes)
    requires i < |s|
    ensures done + Escape(s[i..]) == (done + EscapeByte(s[i])) + Escape(s[i + 1..])
  {
    assert s[i..][0] == s[i] && s[i..][1..] == s[i + 1..];
  }

  method EscapeSegment(s: Bytes) returns (b: Bytes)
    ensures b == Escape(s)
  {
    b := [];
    for i := 0 to |s|
      invariant b + Escape(s[i..]) == Escape(s)
    {
      var c := s[i];
      EscapeNext(s, i, b);
      if (c >= 65 && c <= 90) || (c >= 97 && c <= 122) || (c >= 48 && c <= 57)
         || c == 45 || c == 95 || c == 46 || c == 126 {
        b := b + [c];
      } else {
        b := b + [PERCENT, HexDigit(c / 16), HexDigit(c % 16)];
      }
    }
  }

  const UPPER_HEX: seq<char> := "0123456789ABCDEF"

  /** Letters, digits and "-", "_", ".", "~" stay; any other byte becomes "%" and its two
      digits, in upper case. */
  lemma EscapeOne(c: byte)
    ensures Escape([c]) ==
            if 'A' <= c as char <= 'Z' || 'a' <= c as char <= 'z' || '0' <= c as char <= '9' || c as char in "-_.~"
            then [c]
            else ['%' as int as byte, UPPER_HEX[c / 16] as int as byte, UPPER_HEX[c % 16] as int as byte]
  {
    assert Escape([c]) == EscapeByte(c) + Escape([]);
  }

  lemma {:induction false} EscapeIsByteWise(a: Bytes, b: Bytes)
    ensures Escape(a + b) == Escape(a) + Escape(b)
  {
    if a == [] {
      assert a + b == b;
    } else {
      ConsAppend(a, b);
      EscapeIsByteWise(a[1..], b);
      assert ([a[0]] + (a[1..] + b))[1..] == a[1..] + b;
    }
  }

  /** The value of a hexadecimal digit of either case (RFC 3986, section 2.1). */
  function HexValue(c: byte): Option<byte> {
    if 48 <= c <= 57 then Some(c - 48)
    else if 65 <= c <= 70 then Some(c - 55)
    else if 97 <= c <= 102 then Some(c - 87)
    else None
  }

  /** Percent-decoding. */
  function Decode(s: Bytes): Option<Bytes> {
    if s == [] then Some([])
    else if s[0] != PERCENT then
      match Decode(s[1..]) case Some(r) => Some([s[0]] + r) case None => None
    else if |s| < 3 || HexValue(s[1]).None? || HexValue(s[2]).None? then None
    else
      match Decode(s[3..])
      case Some(r) => Some([Octet(HexValue(s[1]).value, HexValue(s[2]).value)] + r)
      case None => None
  }

  function Octet(hi: byte, lo: byte): byte {
    ((hi as int * 16 + lo as int) % 256) as byte
  }

  lemma HexRoundTrip(c: byte)
    ensures HexValue(HexDigit(c / 16)) == Some(c / 16) && HexValue(HexDigit(c % 16)) == Some(c % 16)
    ensures Octet(c / 16, c % 16) == c
  {
  }

  /** Decoding what one byte became, in front of anything. */
  lemma DecodeOne(c: byte, kept: bool, rest: Bytes)
    requires kept ==> c != PERCENT
    ensures var one := if kept then [c] else [PERCENT, HexDigit(c / 16), HexDigit(c % 16)];
            Decode(one + rest) == if Decode(rest).Some? then Some([c] + Decode(rest).value) else None
  {
    HexRoundTrip(c);
    if kept {
      assert ([c] + rest)[1..] == rest;
    } else {
      var s := [PERCENT, HexDigit(c / 16), HexDigit(c % 16)] + rest;
      assert s[0] == PERCENT && s[1] == HexDigit(c / 16) && s[2] == HexDigit(c % 16) && s[3..] == rest;
    }
  }

  lemma {:induction false} DecodeUndoesEscape(s: Bytes)
    ensures Decode(Escape(s)) == Some(s)
  {
    if s != [] {
      DecodeUndoesEscape(s[1..]);
      assert [s[0]] + s[1..] == s;
      DecodeOne(s[0], Unreserved(s[0]), Escape(s[1..]));
    }
  }

  // ---------- whole paths ----------

  /** strings.Split(p, "/") */
  function Split(p: Bytes): (segs: seq<Bytes>)
    ensures segs != []
  {
    if p == [] then [[]]
    else
      var rest := Split(p[1..]);
      if p[0] == SLASH then [[]] + rest else [[p[0]] + rest[0]] + rest[1..]
  }

  /** strings.Join(segs, "/") */
  function JoinSegments(segs: seq<Bytes>): Bytes {
    if segs == [] then []
    else if |segs| == 1 then segs[0]
    else segs[0] + [SLASH] + JoinSegments(segs[1..])
  }

  function EscapeAll(segs: seq<Bytes>): (r: seq<Bytes>)
    ensures |r| == |segs|
  {
    if segs == [] then [] else [Escape(segs[0])] + EscapeAll(segs[1..])
  }

  function CanonicalPath(p: Bytes): Bytes {
    if p == [] then [SLASH] else JoinSegments(EscapeAll(Split(p)))
  }

  /** s3CanonicalURI, replacing the segments in place. */
  method CanonicalURI(p: Bytes) returns (uri: Bytes)
    ensures uri == CanonicalPath(p)
  {
    if |p| == 0 {
      return [SLASH];
    }
    var segs := Split(p);
    ghost var all := segs;
    for i := 0 to |segs|
      invariant |segs| == |all|
      invariant forall k :: 0 <= k < i ==> segs[k] == Escape(all[k])
      invariant forall k :: i <= k < |all| ==> segs[k] == all[k]
    {
      var e := EscapeSegment(segs[i]);
      segs := segs[i := e];
    }
    EscapeAllAt(all);
    assert segs == EscapeAll(all);
    return JoinSegments(segs);
  }

  lemma {:induction false} EscapeAllAt(segs: seq<Bytes>)
    ensures forall k :: 0 <= k < |segs| ==> EscapeAll(segs)[k] == Escape(segs[k])
  {
    if segs != [] {
      EscapeAllAt(segs[1..]);
      assert forall k :: 0 < k < |segs| ==> segs[k] == segs[1..][k - 1];
    }
  }

  /** One pass over the path, leaving the separators alone. */
  function EscapePath(p: Bytes): Bytes {
    if p == [] then [] else (if p[0] == SLASH then [SLASH] else EscapeByte(p[0])) + EscapePath(p[1..])
  }

  /** Splitting, escaping and joining is that one pass. */
  lemma {:induction false} CanonicalIsOnePass(p: Bytes)
    ensures JoinSegments(EscapeAll(Split(p))) == EscapePath(p)
  {
    if p != [] {
      CanonicalIsOnePass(p[1..]);
      var rest := Split(p[1..]);
      if p[0] == SLASH {
        EscapeHead([], rest);
      } else {
        EscapeFirst(p[0], rest);
        EscapeFirstJoined(p[0], rest);
      }
    }
  }

  lemma EscapeHead(seg: Bytes, rest: seq<Bytes>)
    ensures EscapeAll([seg] + rest) == [Escape(seg)] + EscapeAll(rest)
    ensures rest != [] ==>
              JoinSegments(EscapeAll([seg] + rest)) == Escape(seg) + [SLASH] + JoinSegments(EscapeAll(rest))
  {
    assert ([seg] + rest)[1..] == rest;
    assert ([Escape(seg)] + EscapeAll(rest))[1..] == EscapeAll(rest);
  }

  /** A byte in front of the first segment. */
  lemma EscapeFirst(c: byte, segs: seq<Bytes>)
    requires segs != []
    ensures EscapeAll([[c] + segs[0]] + segs[1..]) == [EscapeByte(c) + Escape(segs[0])] + EscapeAll(segs[1..])
    ensures EscapeAll(segs) == [Escape(segs[0])] + EscapeAll(segs[1..])
  {
    EscapeHead([c] + segs[0], segs[1..]);
    assert ([c] + segs[0])[1..] == segs[0];
  }

  lemma EscapeFirstJoined(c: byte, segs: seq<Bytes>)
    requires segs != []
    ensures JoinSegments(EscapeAll([[c] + segs[0]] + segs[1..])) == EscapeByte(c) + JoinSegments(EscapeAll(segs))
  {
    EscapeFirst(c, segs);
    JoinFirst(EscapeByte(c), Escape(segs[0]), EscapeAll(segs[1..]));
  }

  lemma JoinFirst(front: Bytes, seg: Bytes, rest: seq<Bytes>)
    ensures JoinSegments([front + seg] + rest) == front + JoinSegments([seg] + rest)
  {
    assert ([front + seg] + rest)[1..] == rest && ([seg] + rest)[1..] == rest;
  }

  lemma {:induction false} DecodeUndoesEscapePath(p: Bytes)
    ensures Decode(EscapePath(p)) == Some(p)
  {
    if p != [] {
      DecodeUndoesEscapePath(p[1..]);
      assert [p[0]] + p[1..] == p;
      DecodeOne(p[0], p[0] == SLASH || Unreserved(p[0]), EscapePath(p[1..]));
    }
  }

  lemma EmptyPathIsRoot()
    ensures CanonicalPath([]) == ['/' as int as byte]
  {
  }

  /** For every non-empty path, decoding the canonical form gives the path back. */
  lemma CanonicalRoundTrip(p: Bytes)
    requires p != []
    ensures Decode(CanonicalPath(p)) == Some(p)
  {
    CanonicalIsOnePass(p);
    DecodeUndoesEscapePath(p);
  }

  /** The separators stay where they were: the segments of the canonical form are the
      escaped segments, and it has no byte that is neither unreserved, "%" nor "/". */
  lemma SeparatorsKept(p: Bytes)
    requires p != []
    ensures Split(CanonicalPath(p)) == EscapeAll(Split(p))
    ensures forall c :: c in CanonicalPath(p) ==> Unreserved(c) || c == PERCENT || c == SLASH
  {
    CanonicalIsOnePass(p);
    SplitEscaped(p);
    OnlySafeBytes(p);
  }

  lemma SplitOne(c: byte, rest: Bytes)
    requires c != SLASH
    ensures Split([c] + rest) == [[c] + Split(rest)[0]] + Split(rest)[1..]
  {
    assert ([c] + rest)[1..] == rest;
  }

  lemma {:induction false} SplitAfter(front: Bytes, rest: Bytes)
    requires SLASH !in front
    ensures Split(front + rest) == [front + Split(rest)[0]] + Split(rest)[1..]
  {
    if front == [] {
      assert front + rest == rest && front + Split(rest)[0] == Split(rest)[0];
    } else {
      SplitAfter(front[1..], rest);
      SplitOne(front[0], front[1..] + rest);
      ConsAppend(front, rest);
      assert [front[0]] + (front[1..] + Split(rest)[0]) == front + Split(rest)[0];
    }
  }

  lemma {:induction false} SplitEscaped(p: Bytes)
    ensures Split(EscapePath(p)) == EscapeAll(Split(p))
  {
    if p != [] {
      SplitEscaped(p[1..]);
      var rest := Split(p[1..]);
      if p[0] == SLASH {
        assert ([SLASH] + EscapePath(p[1..]))[1..] == EscapePath(p[1..]);
        EscapeHead([], rest);
      } else {
        SplitAfter(EscapeByte(p[0]), EscapePath(p[1..]));
        EscapeFirst(p[0], rest);
      }
    }
  }

  lemma {:induction false} OnlySafeBytes(p: Bytes)
    ensures forall c :: c in EscapePath(p) ==> Unreserved(c) || c == PERCENT || c == SLASH
  {
    if p != [] {
      OnlySafeBytes(p[1..]);
    }
  }

  // ---------- quoting ----------

  /** strings.ReplaceAll for a one-byte pattern. */
  function ReplaceAll(s: Bytes, from: byte, to: Bytes): Bytes {
    if s == [] then [] else (if s[0] == from then to else [s[0]]) + ReplaceAll(s[1..], from, to)
  }

  /** gdriveQuote: backslashes first, then quotes. */
  function DriveQuote(s: Bytes): Bytes {
    [QUOTE] + ReplaceAll(ReplaceAll(s, BACKSLASH, [BACKSLASH, BACKSLASH]), QUOTE, [BACKSLASH, QUOTE]) + [QUOTE]
  }

  function QuoteByte(c: byte): Bytes {
    if c == BACKSLASH || c == QUOTE then [BACKSLASH, c] else [c]
  }

  function QuoteOnePass(s: Bytes): Bytes {
    if s == [] then [] else QuoteByte(s[0]) + QuoteOnePass(s[1..])
  }

  lemma {:induction false} TwoPassesAreOne(s: Bytes)
    ensures ReplaceAll(ReplaceAll(s, BACKSLASH, [BACKSLASH, BACKSLASH]), QUOTE, [BACKSLASH, QUOTE]) == QuoteOnePass(s)
  {
    if s != [] {
      TwoPassesAreOne(s[1..]);
      TwoPassesByte(s[0], ReplaceAll(s[1..], BACKSLASH, [BACKSLASH, BACKSLASH]));
    }
  }

  lemma TwoPassesByte(c: byte, rest: Bytes)
    ensures ReplaceAll((if c == BACKSLASH then [BACKSLASH, BACKSLASH] else [c]) + rest, QUOTE, [BACKSLASH, QUOTE])
         == QuoteByte(c) + ReplaceAll(rest, QUOTE, [BACKSLASH, QUOTE])
  {
    ReplaceOne(c, rest, QUOTE, [BACKSLASH, QUOTE]);
    if c == BACKSLASH {
      ReplaceOne(c, [c] + rest, QUOTE, [BACKSLASH, QUOTE]);
      assert [c, c] + rest == [c] + ([c] + rest);
    }
  }

  lemma ReplaceOne(c: byte, rest: Bytes, from: byte, to: Bytes)
    ensures ReplaceAll([c] + rest, from, to) == (if c == from then to else [c]) + ReplaceAll(rest, from, to)
  {
    assert ([c] + rest)[1..] == rest;
  }

  /** A reader of the inside of a quoted value: the value and what follows the
      closing quote. */
  function ReadQuoted(s: Bytes): Option<(Bytes, Bytes)> {
    if s == [] then None
    else if s[0] == QUOTE then Some(([], s[1..]))
    else if s[0] == BACKSLASH then
      if |s| < 2 then None else Prepend(s[1], ReadQuoted(s[2..]))
    else Prepend(s[0], ReadQuoted(s[1..]))
  }

  function Prepend(c: byte, r: Option<(Bytes, Bytes)>): Option<(Bytes, Bytes)> {
    match r case Some(p) => Some(([c] + p.0, p.1)) case None => None
  }

  lemma ReadOne(c: byte, rest: Bytes)
    ensures ReadQuoted(QuoteByte(c) + rest) == Prepend(c, ReadQuoted(rest))
  {
    var all := QuoteByte(c) + rest;
    assert all[|QuoteByte(c)|..] == rest;
  }

  lemma {:induction false} ReadUndoesQuote(s: Bytes, after: Bytes)
    ensures ReadQuoted(QuoteOnePass(s) + [QUOTE] + after) == Some((s, after))
  {
    if s == [] {
      assert [] + [QUOTE] + after == [QUOTE] + after;
      assert ([QUOTE] + after)[1..] == after;
    } else {
      ReadUndoesQuote(s[1..], after);
      var rest := QuoteOnePass(s[1..]) + [QUOTE] + after;
      assert QuoteOnePass(s) + [QUOTE] + after == QuoteByte(s[0]) + rest;
      ReadOne(s[0], rest);
      assert [s[0]] + s[1..] == s;
    }
  }

  /** Whatever the value and whatever follows in the query, a reader gets exactly the
      value and stops where the query continues. */
  lemma QuotedValueIsRead(s: Bytes, after: Bytes)
    ensures DriveQuote(s)[0] == QUOTE
    ensures ReadQuoted((DriveQuote(s) + after)[1..]) == Some((s, after))
  {
    TwoPassesAreOne(s);
    ReadUndoesQuote(s, after);
    assert (DriveQuote(s) + after)[1..] == QuoteOnePass(s) + [QUOTE] + after;
  }
}
