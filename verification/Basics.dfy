/** Types shared by the whole model. */
module Basics {

  datatype Option<+T> = None | Some(value: T)

  newtype byte = b: int | 0 <= b < 256

  type Bytes = seq<byte>

  datatype Kind = FileKind | DirKind | LinkKind

  /** One manifest line (proto.ManifestEntry).  `hash` is empty for directories,
      links and files that have not been hashed yet. */
  datatype Entry = Entry(kind: Kind, path: string, size: int, mtime: int, hash: string, target: string)

  /** The libraries the code calls but does not define: zstd, SHA-256 and the
      zstd/JSONL manifest reader.  Every theorem holds for all of them. */
  datatype Codec = Codec(
    unzstd: Bytes -> Option<Bytes>,
    sha256: Bytes -> string,
    readManifest: Bytes -> Option<seq<Entry>>)

  /** The hashes of the file entries, as the mark phase collects them. */
  function FileHashes(entries: seq<Entry>): set<string> {
    set i | 0 <= i < |entries| && entries[i].kind.FileKind? && entries[i].hash != "" :: entries[i].hash
  }

  predicate AllFilesHashed(entries: seq<Entry>) {
    forall i :: 0 <= i < |entries| && entries[i].kind.FileKind? ==> entries[i].hash != ""
  }

  lemma ConsAppend<T>(a: seq<T>, b: seq<T>)
    requires a != []
    ensures a + b == [a[0]] + (a[1..] + b)
  {
  }
}
