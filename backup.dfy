/**
 * The backup pipeline of Examples/main.swift, lines 65-95: chunk and seal a
 * file, write the chunks to the object store, record a `FileEntry` whose
 * `merkleRoot` is computed from the chunk hashes, and restore it again.
 */
module Backup {
  import opened Wrappers
  import opened Crypto
  import opened HexCodec
  import opened Merkle
  import opened Manifest
  import opened Chunking
  import opened ObjectStore
  import opened Restore

  /** `chunks.map { $0.0 }`. */
  function Hashes(cs: seq<Chunk>): (hs: seq<string>)
    ensures |hs| == |cs|
  {
    seq(|cs|, i requires 0 <= i < |cs| => cs[i].hash)
  }

  /** The `FileEntry` recorded for a file after chunking it. */
  function EntryFor(suite: Suite, path: string, data: Bytes, cs: seq<Chunk>, metadata: map<string, AnyValue>): FileEntry
  {
    FileEntry(path, |data|, Hashes(cs), Hex(suite.sha256(data)), metadata, MerkleRootOf(suite, Hashes(cs)))
  }

  /** The codec gives every window of the file back from its compressed form. */
  predicate RoundTrips(c: Compression, data: Bytes, n: int)
    requires n > 0
  {
    forall i :: 0 <= i < |Windows(data, n)| ==>
      Compress(c, Window(data, n, i)).Some? && Decompress(c, Compress(c, Window(data, n, i)).value) == Some(Window(data, n, i))
  }

  /** No two different windows of the file compress to bytes with the same SHA-256. */
  predicate CollisionFree(suite: Suite, data: Bytes, n: int)
    requires n > 0
  {
    forall i, j :: 0 <= i < |Windows(data, n)| && 0 <= j < |Windows(data, n)|
      && Compress(suite.compression, Window(data, n, i)).Some? && Compress(suite.compression, Window(data, n, j)).Some?
      && suite.sha256(Compress(suite.compression, Window(data, n, i)).value)
         == suite.sha256(Compress(suite.compression, Window(data, n, j)).value)
      ==> Window(data, n, i) == Window(data, n, j)
  }

  /** An object already in the store under one of the file's chunk hashes holds a seal of that chunk's bytes. */
  predicate GenuineObjects(suite: Suite, key: Key, objects: map<Hash, Bytes>, data: Bytes, n: int, cs: seq<Chunk>)
    requires n > 0
  {
    forall i ::
      (0 <= i < |cs| && i < |Windows(data, n)| && cs[i].hash in objects
       && Compress(suite.compression, Window(data, n, i)).Some?) ==>
        suite.open(key, objects[cs[i].hash]) == Opened(Compress(suite.compression, Window(data, n, i)).value)
  }

  /** In the fallback build every file round-trips through the codec. */
  lemma FallbackRoundTrips(data: Bytes, n: int)
    requires n > 0
    ensures RoundTrips(Fallback, data, n)
  {
  }

  lemma HexInjective(a: Bytes, b: Bytes)
    requires Hex(a) == Hex(b)
    ensures a == b
  {
    HexRoundTrip(a);
    HexRoundTrip(b);
  }

  /** Chunk i, once written, opens back to window i of the file. */
  lemma ChunkRestores(suite: Suite, key: Key, nonces: nat -> Nonce, data: Bytes, n: int,
                      s: StoreState, io: IoPlan, i: int)
    requires n > 0 && AeadSound(suite)
    requires ChunkAndEncryptOf(suite, key, nonces, data, n).Success?
    requires var cs := ChunkAndEncryptOf(suite, key, nonces, data, n).value;
      && WriteAll(s, cs, io).1.Pass?
      && RoundTrips(suite.compression, data, n)
      && CollisionFree(suite, data, n)
      && GenuineObjects(suite, key, s.objects, data, n, cs)
    requires 0 <= i < |ChunkAndEncryptOf(suite, key, nonces, data, n).value|
    ensures var cs := ChunkAndEncryptOf(suite, key, nonces, data, n).value;
      OpenChunk(suite, key, WriteAll(s, cs, io).0.objects, cs[i].hash) == Success(Window(data, n, i))
  {
    var cs := ChunkAndEncryptOf(suite, key, nonces, data, n).value;
    var objects' := WriteAll(s, cs, io).0.objects;
    var h := cs[i].hash;
    ChunkCount(suite, key, nonces, data, n);
    WindowsCount(data, n);
    ChunkContents(suite, key, nonces, data, n, i);
    var comp := Compress(suite.compression, Window(data, n, i)).value;
    WriteAllStoresAll(s, cs, io);
    WriteAllKeepsObjects(s, cs, io);
    if h !in s.objects {
      WriteAllNewObjects(s, cs, io, h);
      var f := FirstWith(cs, h);
      ChunkContents(suite, key, nonces, data, n, f);
      ChunkOpens(suite, key, nonces, data, n, f);
      HexInjective(suite.sha256(Compress(suite.compression, Window(data, n, f)).value), suite.sha256(comp));
    }
    assert suite.open(key, objects'[h]) == Opened(comp);
  }

  /**
   * Backup then restore gives the file back: chunk the data, write every chunk,
   * record the entry with the Merkle root of the chunk hashes, and the restore
   * of that entry from the resulting store returns exactly the original bytes,
   * provided the AEAD opens what it sealed, the codec round-trips the file's
   * windows, no two windows collide under SHA-256, and objects already in the
   * store under these hashes are genuine.
   */
  lemma BackupThenRestore(suite: Suite, key: Key, nonces: nat -> Nonce, data: Bytes, n: int,
                          s: StoreState, io: IoPlan, path: string, metadata: map<string, AnyValue>)
    requires n > 0 && AeadSound(suite)
    requires ChunkAndEncryptOf(suite, key, nonces, data, n).Success?
    requires var cs := ChunkAndEncryptOf(suite, key, nonces, data, n).value;
      && WriteAll(s, cs, io).1.Pass?
      && RoundTrips(suite.compression, data, n)
      && CollisionFree(suite, data, n)
      && GenuineObjects(suite, key, s.objects, data, n, cs)
    ensures var cs := ChunkAndEncryptOf(suite, key, nonces, data, n).value;
      RestoreSpec(suite, key, WriteAll(s, cs, io).0.objects, EntryFor(suite, path, data, cs, metadata)) == Success(data)
  {
    var cs := ChunkAndEncryptOf(suite, key, nonces, data, n).value;
    var objects' := WriteAll(s, cs, io).0.objects;
    var hs := Hashes(cs);
    ChunkCount(suite, key, nonces, data, n);
    WindowsCount(data, n);
    var ws := Windows(data, n);
    forall i | 0 <= i < |hs| ensures OpenChunk(suite, key, objects', hs[i]) == Success(ws[i]) {
      ChunkRestores(suite, key, nonces, data, n, s, io, i);
      WindowsAt(data, n, i);
    }
    ReassembleExactly(suite, key, objects', hs);
    assert OpenedChunks(suite, key, objects', hs) == ws;
    WindowsCover(data, n);
  }

  /** Every hash the chunker emits survives the commit log's line and field splitting. */
  lemma ChunkHashesWellFormed(suite: Suite, key: Key, nonces: nat -> Nonce, data: Bytes, n: int)
    requires n > 0
    requires ChunkAndEncryptOf(suite, key, nonces, data, n).Success?
    ensures var cs := ChunkAndEncryptOf(suite, key, nonces, data, n).value;
      forall i :: 0 <= i < |cs| ==> WellFormedHash(cs[i].hash)
  {
    var cs := ChunkAndEncryptOf(suite, key, nonces, data, n).value;
    forall i | 0 <= i < |cs| ensures WellFormedHash(cs[i].hash) {
      ChunkContents(suite, key, nonces, data, n, i);
      assert forall j :: 0 <= j < |cs[i].hash| ==> IsLowerHexDigit(cs[i].hash[j]);
    }
  }

  /**
   * Writing a file's chunks, whether the batch completes or stops at an I/O
   * failure, never leaves the audit reporting a missing object on a store
   * whose audit was clean.
   */
  lemma BackupKeepsAuditClean(suite: Suite, key: Key, nonces: nat -> Nonce, data: Bytes, n: int,
                              s: StoreState, io: IoPlan)
    requires n > 0 && Consistent(s)
    requires ChunkAndEncryptOf(suite, key, nonces, data, n).Success?
    ensures Missing(WriteAll(s, ChunkAndEncryptOf(suite, key, nonces, data, n).value, io).0) == []
  {
    ChunkHashesWellFormed(suite, key, nonces, data, n);
    WriteAllKeepsConsistent(s, ChunkAndEncryptOf(suite, key, nonces, data, n).value, io);
  }
}
