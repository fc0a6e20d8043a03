/** Storage key strings (internal/server/storage/storage.go). */
module StorageKeys {
  import opened Basics
  import opened Tables

  predicate IsHex(c: char) {
    '0' <= c <= '9' || 'a' <= c <= 'f'
  }

  /** hashRe: exactly 64 lower-case hexadecimal digits. */
  predicate IsHash(h: string) {
    |h| == 64 && forall i :: 0 <= i < |h| ==> IsHex(h[i])
  }

  /** What the pattern ^[0-9a-f]{64}$ matches. */
  lemma IsHashIff(h: string)
    ensures IsHash(h) <==> |h| == 64 && forall c :: c in h ==> c in "0123456789abcdef"
  {
    forall c: char
      ensures IsHex(c) <==> c in "0123456789abcdef"
    {
      HexDigits(c);
    }
  }

  lemma HexDigits(c: char)
    ensures IsHex(c) <==> c in "0123456789abcdef"
  {
    var digits := "0123456789abcdef";
    if IsHex(c) {
      assert digits[if c <= '9' then c as int - 48 else c as int - 87] == c;
    }
  }

  function BlobKey(hash: string): string
    requires |hash| >= 2
  {
    "blobs/" + hash[..2] + "/" + hash + ".zst"
  }

  function ManifestKey(id: string): string {
    "manifests/" + id + ".jsonl.zst"
  }

  function TransferKey(id: string): string {
    "transfers/" + id + ".zst"
  }

  function KeyName(k: ObjectKey): string
    requires k.BlobObject? ==> IsHash(k.hash)
  {
    match k
    case BlobObject(h) => BlobKey(h)
    case ManifestObject(id) => ManifestKey(id)
    case TransferObject(id) => TransferKey(id)
  }

  /** A blob's key is its hash, fanned out over its first two digits. */
  lemma BlobKeyIs(h: string)
    requires IsHash(h)
    ensures var key := KeyName(BlobObject(h));
            |key| == 77 && key[..6] == "blobs/" && key[6..8] == h[..2] && key[8] == '/' && key[9..73] == h
            && key[73..] == ".zst"
  {
  }

  lemma PaddedInjective(a: string, b: string, front: string, back: string)
    requires front + a + back == front + b + back
    ensures a == b
  {
    assert |a| == |b|;
    assert a == (front + a + back)[|front|..|front| + |a|];
    assert b == (front + b + back)[|front|..|front| + |b|];
  }

  /** Two keys share a string only when they are the same key: the three
      namespaces are disjoint and each key function is injective. */
  lemma KeyNameInjective(k: ObjectKey, l: ObjectKey)
    requires k.BlobObject? ==> IsHash(k.hash)
    requires l.BlobObject? ==> IsHash(l.hash)
    ensures KeyName(k) == KeyName(l) <==> k == l
  {
    if KeyName(k) == KeyName(l) {
      assert KeyName(k)[0] == (if k.BlobObject? then 'b' else if k.ManifestObject? then 'm' else 't');
      assert KeyName(l)[0] == (if l.BlobObject? then 'b' else if l.ManifestObject? then 'm' else 't');
      match k
      case BlobObject(h) =>
        assert BlobKey(h)[9..73] == h;
        assert BlobKey(l.hash)[9..73] == l.hash;
      case ManifestObject(id) =>
        PaddedInjective(id, l.id, "manifests/", ".jsonl.zst");
      case TransferObject(id) =>
        PaddedInjective(id, l.id, "transfers/", ".zst");
    }
  }
}
