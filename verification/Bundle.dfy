/** Enrollment details appended to an executable, and read back from its end. */
module Bundle {
  import opened Basics

  const FOOTER_LEN := 24
  const MAX_LEN := 0x10_0000

  /** "CBAGENTCFGv1" and four zero bytes. */
  const MAGIC: Bytes := [67, 66, 65, 71, 69, 78, 84, 67, 70, 71, 118, 49, 0, 0, 0, 0]

  // ---------- big-endian lengths ----------

  function BigEndian(n: nat, width: nat): (s: Bytes)
    ensures |s| == width
  {
    if width == 0 then [] else BigEndian(n / 256, width - 1) + [(n % 256) as byte]
  }

  function Unsigned(s: Bytes): nat {
    if s == [] then 0 else Unsigned(s[..|s| - 1]) * 256 + s[|s| - 1] as nat
  }

  function Pow256(k: nat): nat {
    if k == 0 then 1 else 256 * Pow256(k - 1)
  }

  /** int64(x) for an unsigned 64-bit x. */
  function Signed(u: nat): int {
    if u < 0x8000_0000_0000_0000 then u else u - 0x1_0000_0000_0000_0000
  }

  lemma {:induction false} BigEndianRoundTrip(n: nat, width: nat)
    requires n < Pow256(width)
    ensures Unsigned(BigEndian(n, width)) == n
  {
    if width > 0 {
      BigEndianRoundTrip(n / 256, width - 1);
      var s := BigEndian(n, width);
      assert s[..|s| - 1] == BigEndian(n / 256, width - 1);
    }
  }

  lemma {:induction false} UnsignedBound(s: Bytes)
    ensures Unsigned(s) < Pow256(|s|)
  {
    if s != [] {
      UnsignedBound(s[..|s| - 1]);
    }
  }

  lemma Width8()
    ensures Pow256(8) == 0x1_0000_0000_0000_0000
  {
    assert Pow256(2) == 0x1_0000;
    assert Pow256(4) == 256 * (256 * Pow256(2));
    assert Pow256(6) == 256 * (256 * Pow256(4));
    assert Pow256(8) == 256 * (256 * Pow256(6));
  }

  // ---------- writing ----------

  class Stream {
    var data: Bytes

    method Write(b: Bytes)
      modifies this
      ensures data == old(data) + b
    {
      data := data + b;
    }
  }

  function Footer(blob: Bytes): Bytes {
    BigEndian(|blob|, 8) + MAGIC
  }

  /** The footer is 24 bytes: the length, then the magic text padded with zeros. */
  lemma FooterIs(blob: Bytes)
    ensures |Footer(blob)| == 24
    ensures var text := "CBAGENTCFGv1";
            forall i :: 0 <= i < 16 ==>
              Footer(blob)[8 + i] as int == if i < |text| then text[i] as int else 0
  {
    assert MAGIC == Footer(blob)[8..];
  }

  lemma Joined(a: Bytes, b: Bytes, c: Bytes, d: Bytes, e: Bytes)
    ensures a + b + c + d + e == a + (b + c + (d + e))
  {
  }

  /** An encoding that is too large is refused only after the executable is written. */
  method Append(w: Stream, exe: Bytes, blob: Bytes) returns (ok: bool)
    modifies w
    ensures ok <==> |blob| <= MAX_LEN
    ensures w.data == old(w.data) + if ok then exe + blob + Footer(blob) else exe
  {
    w.Write(exe);
    if |blob| > MAX_LEN {
      return false;
    }
    w.Write(blob);
    var size := PutUint64(|blob|);
    w.Write(size);
    w.Write(MAGIC);
    Joined(old(w.data), exe, blob, size, MAGIC);
    return true;
  }

  method PutUint64(n: nat) returns (size: Bytes)
    ensures size == BigEndian(n, 8)
  {
    var rest := n;
    size := [];
    for i := 0 to 8
      invariant |size| == i && BigEndian(rest, 8 - i) + size == BigEndian(n, 8)
    {
      assert BigEndian(rest, 8 - i) == BigEndian(rest / 256, 7 - i) + [(rest % 256) as byte];
      size := [(rest % 256) as byte] + size;
      rest := rest / 256;
    }
    assert BigEndian(rest, 0) + size == size;
  }

  // ---------- reading ----------

  datatype Enrolled<E> = Plain | Implausible(n: int) | NotJson | Found(enrollment: E)

  /** The length field, when the file ends in a footer. */
  function LengthField(file: Bytes): Option<nat> {
    var n := |file|;
    if n < FOOTER_LEN || file[n - 16..] != MAGIC then None else Some(Unsigned(file[n - FOOTER_LEN..n - 16]))
  }

  /** What reading a file should give, in terms of the unsigned length field. */
  function Embedded<E>(file: Bytes, unmarshal: Bytes -> Option<E>): Enrolled<E> {
    match LengthField(file)
    case None => Plain
    case Some(u) =>
      var end := |file| - FOOTER_LEN;
      if u == 0 || u > MAX_LEN || u > end then Implausible(Signed(u))
      else
        match unmarshal(file[end - u..end])
        case Some(e) => Found(e)
        case None => NotJson
  }

  /** ReadAt never asks for bytes outside the file. */
  method ReadAt(file: Bytes, n: int, offset: int) returns (buf: Bytes)
    requires 0 <= n && 0 <= offset && offset + n <= |file|
    ensures buf == file[offset..offset + n]
  {
    return file[offset..offset + n];
  }

  /** Read, with the signed length as the code computes it. */
  method Read<E>(file: Bytes, unmarshal: Bytes -> Option<E>) returns (r: Enrolled<E>)
    ensures r == Embedded(file, unmarshal)
  {
    if |file| < FOOTER_LEN {
      return Plain;
    }
    var footer := ReadAt(file, FOOTER_LEN, |file| - FOOTER_LEN);
    assert footer[8..] == file[|file| - 16..] && footer[..8] == file[|file| - FOOTER_LEN..|file| - 16];
    if footer[8..] != MAGIC {
      return Plain;
    }
    UnsignedBound(footer[..8]);
    Width8();
    var n := Signed(Unsigned(footer[..8]));
    if n <= 0 || n > MAX_LEN || |file| - FOOTER_LEN - n < 0 {
      return Implausible(n);
    }
    var blob := ReadAt(file, n, |file| - FOOTER_LEN - n);
    var e := unmarshal(blob);
    if e.None? {
      return NotJson;
    }
    return Found(e.value);
  }

  // ---------- round trips ----------

  /** What Append writes for an encoding within the limit. */
  function Bundled(exe: Bytes, blob: Bytes): Bytes {
    exe + blob + Footer(blob)
  }

  lemma BundledField(exe: Bytes, blob: Bytes)
    requires |blob| <= MAX_LEN
    ensures LengthField(Bundled(exe, blob)) == Some(|blob|)
    ensures var end := |Bundled(exe, blob)| - FOOTER_LEN;
            end == |exe| + |blob| && Bundled(exe, blob)[end - |blob|..end] == blob
  {
    var file := Bundled(exe, blob);
    Width8();
    BigEndianRoundTrip(|blob|, 8);
    assert file[|file| - 16..] == MAGIC;
    assert file[|file| - FOOTER_LEN..|file| - 16] == BigEndian(|blob|, 8);
  }

  /** Reading an appended bundle gives that enrollment, exactly when its encoding is
      not empty; the executable is an exact prefix. */
  lemma BundleRoundTrip<E>(exe: Bytes, blob: Bytes, e: E, unmarshal: Bytes -> Option<E>)
    requires |blob| <= MAX_LEN && unmarshal(blob) == Some(e)
    ensures exe <= Bundled(exe, blob)
    ensures Embedded(Bundled(exe, blob), unmarshal) == if |blob| > 0 then Found(e) else Implausible(0)
  {
    BundledField(exe, blob);
  }

  /** Bundling again returns the newest enrollment, and keeps the old bundle below it. */
  lemma RebundleReturnsNewest<E>(exe: Bytes, first: Bytes, second: Bytes, e: E, unmarshal: Bytes -> Option<E>)
    requires |first| <= MAX_LEN && 0 < |second| <= MAX_LEN && unmarshal(second) == Some(e)
    ensures Embedded(Bundled(Bundled(exe, first), second), unmarshal) == Found(e)
    ensures exe <= Bundled(exe, first) <= Bundled(Bundled(exe, first), second)
  {
    BundleRoundTrip(Bundled(exe, first), second, e, unmarshal);
  }

  /** A file counts as an unbundled executable exactly when it is too short for a footer or
      does not end in the magic text. */
  lemma PlainIff<E>(file: Bytes, unmarshal: Bytes -> Option<E>)
    ensures var text, n := "CBAGENTCFGv1", |file|;
            Embedded(file, unmarshal).Plain? <==>
            n < 24 || exists i :: 0 <= i < 16 && file[n - 16 + i] as int != if i < |text| then text[i] as int else 0
  {
    var n := |file|;
    if n >= 24 {
      var tail := file[n - 16..];
      MagicIs();
      assert forall i :: 0 <= i < 16 ==> tail[i] == file[n - 16 + i];
      if tail != MAGIC {
        var i :| 0 <= i < 16 && tail[i] != MAGIC[i];
        assert file[n - 16 + i] != MAGIC[i];
      }
    }
  }

  lemma MagicIs()
    ensures |MAGIC| == 16
    ensures var text := "CBAGENTCFGv1";
            forall i :: 0 <= i < 16 ==> MAGIC[i] as int == if i < |text| then text[i] as int else 0
  {
  }

  /** A footer's length is implausible exactly when it is not between 1 and both the
      limit and the bytes before the footer, whether or not it wraps negative. */
  lemma ImplausibleIff<E>(file: Bytes, unmarshal: Bytes -> Option<E>)
    ensures var r, n := Embedded(file, unmarshal), LengthField(file);
            && (r.Plain? <==> n.None?)
            && (r.Implausible? <==> n.Some? && !(1 <= n.value <= 1048576 && n.value + 24 <= |file|))
            && (r.Implausible? && r.n < 0 <==> n.Some? && n.value >= 0x8000_0000_0000_0000)
  {
    if LengthField(file).Some? {
      UnsignedBound(file[|file| - FOOTER_LEN..|file| - 16]);
      Width8();
    }
  }
}
