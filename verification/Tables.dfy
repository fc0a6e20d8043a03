/** The database tables and the object store, with one function per statement.
    Every row and object belongs to one storage backend. */
module Tables {
  import opened Basics

  /** What a storage key names; StorageKeys proves the strings never collide. */
  datatype ObjectKey = BlobObject(hash: string) | ManifestObject(id: string) | TransferObject(id: string)
  datatype ObjectId = ObjectId(backend: string, key: ObjectKey)
  datatype BlobId = BlobId(backend: string, hash: string)
  datatype Snapshot = Snapshot(id: string, backend: string, job: string, created: int)

  /** `snapshots` is in rowid order; `blobs` maps an index row to its created_at. */
  datatype Tables = Tables(
    active: string,
    clock: int,
    objects: map<ObjectId, Bytes>,
    blobs: map<BlobId, int>,
    snapshots: seq<Snapshot>)
  {
    function Put(key: ObjectKey, data: Bytes): Tables {
      this.(objects := objects[ObjectId(active, key) := data])
    }

    /** Leaves the key holding `content`, or nothing. */
    function Settle(key: ObjectKey, content: Option<Bytes>): Tables {
      match content
      case Some(data) => Put(key, data)
      case None => Remove(key)
    }

    function Remove(key: ObjectKey): Tables {
      this.(objects := objects - {ObjectId(active, key)})
    }

    /** INSERT ... ON CONFLICT DO NOTHING: an existing row keeps its created_at. */
    function AddBlob(id: BlobId): Tables {
      if id in blobs then this else this.(blobs := blobs[id := clock])
    }

    function DeleteBlob(id: BlobId): Tables {
      this.(blobs := blobs - {id})
    }

    function InsertSnapshot(sn: Snapshot): Tables {
      this.(snapshots := snapshots + [sn])
    }

    function DeleteSnapshotRow(id: string): Tables {
      this.(snapshots := WithoutId(snapshots, id))
    }
  }

  function WithoutId(rows: seq<Snapshot>, id: string): (kept: seq<Snapshot>)
    ensures forall sn :: sn in kept <==> sn in rows && sn.id != id
  {
    if rows == [] then []
    else if rows[0].id == id then WithoutId(rows[1..], id)
    else [rows[0]] + WithoutId(rows[1..], id)
  }

  /** The object is stored and decompresses to content with the claimed hash. */
  predicate GoodBlob(codec: Codec, t: Tables, id: BlobId) {
    var o := ObjectId(id.backend, BlobObject(id.hash));
    o in t.objects && Verified(codec, t.objects[o], id.hash)
  }

  predicate Verified(codec: Codec, data: Bytes, hash: string) {
    codec.unzstd(data).Some? && codec.sha256(codec.unzstd(data).value) == hash
  }

  predicate HoldsManifest(codec: Codec, t: Tables, sn: Snapshot, entries: seq<Entry>) {
    var o := ObjectId(sn.backend, ManifestObject(sn.id));
    o in t.objects && codec.readManifest(t.objects[o]) == Some(entries)
  }

  /** Every hash is indexed and backed by a good object in that backend. */
  ghost predicate Available(codec: Codec, t: Tables, backend: string, hashes: set<string>) {
    forall h :: h in hashes ==> BlobId(backend, h) in t.blobs && GoodBlob(codec, t, BlobId(backend, h))
  }

  /** The snapshot can be restored in full from its own backend. */
  ghost predicate Restorable(codec: Codec, t: Tables, sn: Snapshot, entries: seq<Entry>) {
    && HoldsManifest(codec, t, sn, entries)
    && AllFilesHashed(entries)
    && Available(codec, t, sn.backend, FileHashes(entries))
  }

  /** eachManifestEntry reads from the active backend, whatever backend a row is of. */
  function ReadFrom(codec: Codec, t: Tables, id: string): Option<seq<Entry>> {
    var o := ObjectId(t.active, ManifestObject(id));
    if o in t.objects then codec.readManifest(t.objects[o]) else None
  }
}
