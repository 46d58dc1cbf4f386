/**
 * RestoreTool.swift: rebuilding files from a snapshot. Each chunk object is
 * read, opened with the snapshot key, decompressed and checked against its
 * hash; the concatenation is checked against the file's SHA-256 and the Merkle
 * root of its chunk list, and only then written. `restoreAll` does this for
 * every `.json` entry of the snapshot's `files` directory, stopping at the
 * first error.
 *
 * The snapshot is a value: its objects by hash and the state of its `files`
 * directory (absent, present but not listable, or its listing). The restored tree is a map from
 * path to contents plus the set of directories created. Which writes and
 * directory creations fail is a parameter.
 */
module Restore {
  import opened Wrappers
  import opened Crypto
  import opened HexCodec
  import opened Merkle
  import opened Manifest
  import opened Chunking

  type Hash = string

  /** `RestoreError`, case for case. */
  datatype RestoreError =
    | MissingChunk(hash: Hash)
    | DecryptionFailed(hash: Hash)
    | DecompressionFailed(hash: Hash)
    | ChecksumMismatch(expected: string, got: string)
    | FileChecksumMismatch(expected: string, got: string)
    | MerkleRootMismatch(expected: string, got: string)
    | FilesDirectoryNotFound

  /** Everything a restore can throw: its own errors and those it lets through. */
  datatype RestoreFailure =
    | Restore(error: RestoreError)
    | AuthenticationFailed
    | EntryUnreadable(name: string)
    | ListingFailed
    | CreateDirectoryFailed(path: string)
    | WriteFailed(path: string)

  /** One item of the `files` directory: its name and the decoded entry, if it decodes. */
  datatype Listing = Listing(name: string, entry: Option<FileEntry>)

  /**
   * The snapshot's `files` entry: absent, present but not listable (a regular
   * file, say, on which `contentsOfDirectory` throws), or listed.
   */
  datatype FilesDir = NoFilesDir | NotListable | Listed(items: seq<Listing>)

  datatype Snapshot = Snapshot(objects: map<Hash, Bytes>, files: FilesDir)

  /** The restored tree: file contents by path, and the directories created. */
  datatype Tree = Tree(files: map<string, Bytes>, dirs: set<string>)

  datatype RestoreIo = RestoreIo(mkdirFails: string -> bool, writeFails: string -> bool)

  // ---------------------------------------------------------------- one file

  /**
   * One pass of the chunk loop in `restoreFile`: existence, box parsing,
   * authentication, decompression, then the hash of the decrypted (still
   * compressed) bytes.
   */
  function OpenChunk(suite: Suite, key: Key, objects: map<Hash, Bytes>, h: Hash): (r: Result<Bytes, RestoreFailure>)
    ensures r.Success? ==> h in objects
    ensures r.Failure? ==> IsChunkFailure(r.error)
  {
    if h !in objects then Failure(Restore(MissingChunk(h)))
    else
      match suite.open(key, objects[h])
      case NotASealedBox => Failure(Restore(DecryptionFailed(h)))
      case AuthenticationFailure => Failure(AuthenticationFailed)
      case Opened(compressed) =>
        match Decompress(suite.compression, compressed)
        case None => Failure(Restore(DecompressionFailed(h)))
        case Some(plain) =>
          var got := Hex(suite.sha256(compressed));
          if got != h then Failure(Restore(ChecksumMismatch(h, got))) else Success(plain)
  }

  /** The failures a single chunk can cause. */
  predicate IsChunkFailure(f: RestoreFailure)
  {
    f.AuthenticationFailed?
    || (f.Restore? && (f.error.MissingChunk? || f.error.DecryptionFailed?
                       || f.error.DecompressionFailed? || f.error.ChecksumMismatch?))
  }

  /** The chunks of a file opened in order and concatenated; the first failing chunk decides. */
  function Reassemble(suite: Suite, key: Key, objects: map<Hash, Bytes>, hs: seq<Hash>): (r: Result<Bytes, RestoreFailure>)
    ensures r.Failure? ==> IsChunkFailure(r.error)
    decreases |hs|
  {
    if hs == [] then Success([])
    else
      match OpenChunk(suite, key, objects, hs[0])
      case Failure(e) => Failure(e)
      case Success(first) =>
        match Reassemble(suite, key, objects, hs[1..])
        case Failure(e) => Failure(e)
        case Success(rest) => Success(first + rest)
  }

  /** What `restoreFile` produces before writing: the data, or the first check that fails. */
  function RestoreSpec(suite: Suite, key: Key, objects: map<Hash, Bytes>, e: FileEntry): (r: Result<Bytes, RestoreFailure>)
    ensures Reassemble(suite, key, objects, e.chunkHashes).Failure? ==>
      r == Failure(Reassemble(suite, key, objects, e.chunkHashes).error)
    ensures r.Success? ==>
      Reassemble(suite, key, objects, e.chunkHashes) == r
      && Hex(suite.sha256(r.value)) == e.fileSHA256
      && MerkleRootOf(suite, e.chunkHashes) == e.merkleRoot
  {
    match Reassemble(suite, key, objects, e.chunkHashes)
    case Failure(err) => Failure(err)
    case Success(data) =>
      var fileHex := Hex(suite.sha256(data));
      if fileHex != e.fileSHA256 then Failure(Restore(FileChecksumMismatch(e.fileSHA256, fileHex)))
      else
        var computed := MerkleRootOf(suite, e.chunkHashes);
        if computed != e.merkleRoot then Failure(Restore(MerkleRootMismatch(e.merkleRoot, computed)))
        else Success(data)
  }

  /** `restoreFile(fileEntry:to:)`: the atomic write happens only after every check passed. */
  function RestoreFileOf(suite: Suite, key: Key, objects: map<Hash, Bytes>, e: FileEntry, dest: string,
                         writeFails: bool, files: map<string, Bytes>): (map<string, Bytes>, Outcome<RestoreFailure>)
  {
    match RestoreSpec(suite, key, objects, e)
    case Failure(err) => (files, Fail(err))
    case Success(data) => if writeFails then (files, Fail(WriteFailed(dest))) else (files[dest := data], Pass)
  }

  /**
   * The destination is written only with data that passed every check, and
   * any error leaves every file as it was.
   */
  lemma RestoreFileWritesOnlyVerified(suite: Suite, key: Key, objects: map<Hash, Bytes>, e: FileEntry, dest: string,
                                      writeFails: bool, files: map<string, Bytes>)
    ensures RestoreFileOf(suite, key, objects, e, dest, writeFails, files).1.Fail? ==>
      RestoreFileOf(suite, key, objects, e, dest, writeFails, files).0 == files
    ensures RestoreFileOf(suite, key, objects, e, dest, writeFails, files).1.Pass? <==>
      RestoreSpec(suite, key, objects, e).Success? && !writeFails
    ensures RestoreFileOf(suite, key, objects, e, dest, writeFails, files).1.Pass? ==>
      RestoreFileOf(suite, key, objects, e, dest, writeFails, files).0 == files[dest := RestoreSpec(suite, key, objects, e).value]
  {
  }

  /** The chunk opened for each hash, in order. */
  function OpenedChunks(suite: Suite, key: Key, objects: map<Hash, Bytes>, hs: seq<Hash>): seq<Bytes>
    requires forall i :: 0 <= i < |hs| ==> OpenChunk(suite, key, objects, hs[i]).Success?
  {
    seq(|hs|, i requires 0 <= i < |hs| => OpenChunk(suite, key, objects, hs[i]).value)
  }

  /**
   * Reassembly succeeds exactly when every chunk opens, and then yields their
   * concatenation: each chunk was present, authenticated, decompressed, and its
   * decrypted bytes hash to the name it was stored under.
   */
  lemma {:induction false} ReassembleExactly(suite: Suite, key: Key, objects: map<Hash, Bytes>, hs: seq<Hash>)
    ensures Reassemble(suite, key, objects, hs).Success? <==>
      forall i :: 0 <= i < |hs| ==> OpenChunk(suite, key, objects, hs[i]).Success?
    ensures Reassemble(suite, key, objects, hs).Success? ==>
      Reassemble(suite, key, objects, hs).value == Flatten(OpenedChunks(suite, key, objects, hs))
    decreases |hs|
  {
    if hs != [] {
      ReassembleExactly(suite, key, objects, hs[1..]);
      if OpenChunk(suite, key, objects, hs[0]).Success? {
        if Reassemble(suite, key, objects, hs).Success? {
          forall i | 0 <= i < |hs| ensures OpenChunk(suite, key, objects, hs[i]).Success? {
            if i > 0 { assert hs[i] == hs[1..][i - 1]; }
          }
          var os := OpenedChunks(suite, key, objects, hs);
          assert os[1..] == OpenedChunks(suite, key, objects, hs[1..]);
          assert os == [os[0]] + os[1..];
        } else {
          var j :| 0 <= j < |hs[1..]| && !OpenChunk(suite, key, objects, hs[1..][j]).Success?;
          assert hs[j + 1] == hs[1..][j];
        }
      }
    }
  }

  /**
   * A failed reassembly fails on the first chunk that does not open, with that
   * chunk's error, and `restoreFile` reports that error without further checks.
   */
  lemma {:induction false} ReassembleFailure(suite: Suite, key: Key, objects: map<Hash, Bytes>, hs: seq<Hash>) returns (i: nat)
    requires Reassemble(suite, key, objects, hs).Failure?
    ensures i < |hs|
    ensures forall j :: 0 <= j < i ==> OpenChunk(suite, key, objects, hs[j]).Success?
    ensures OpenChunk(suite, key, objects, hs[i]) == Failure(Reassemble(suite, key, objects, hs).error)
    decreases |hs|
  {
    if OpenChunk(suite, key, objects, hs[0]).Failure? {
      i := 0;
    } else {
      var i' := ReassembleFailure(suite, key, objects, hs[1..]);
      i := i' + 1;
      forall j | 0 <= j < i ensures OpenChunk(suite, key, objects, hs[j]).Success? {
        if j > 0 { assert hs[j] == hs[1..][j - 1]; }
      }
    }
  }

  /**
   * What a successful restore guarantees: the data hashes to the entry's
   * `fileSHA256`, the entry's chunk list yields its `merkleRoot`, and the data
   * is the concatenation of its chunks, each one authenticated and matching its hash.
   */
  lemma RestoreSpecSound(suite: Suite, key: Key, objects: map<Hash, Bytes>, e: FileEntry)
    requires RestoreSpec(suite, key, objects, e).Success?
    ensures Hex(suite.sha256(RestoreSpec(suite, key, objects, e).value)) == e.fileSHA256
    ensures MerkleRootOf(suite, e.chunkHashes) == e.merkleRoot
    ensures forall i :: 0 <= i < |e.chunkHashes| ==> e.chunkHashes[i] in objects
    ensures forall i :: 0 <= i < |e.chunkHashes| ==> OpenChunk(suite, key, objects, e.chunkHashes[i]).Success?
    ensures RestoreSpec(suite, key, objects, e).value == Flatten(OpenedChunks(suite, key, objects, e.chunkHashes))
  {
    ReassembleExactly(suite, key, objects, e.chunkHashes);
  }

  /** A file one of whose chunk objects was deleted is never restored. */
  lemma MissingChunkNeverRestores(suite: Suite, key: Key, objects: map<Hash, Bytes>, e: FileEntry, i: int)
    requires 0 <= i < |e.chunkHashes| && e.chunkHashes[i] !in objects
    ensures RestoreSpec(suite, key, objects, e).Failure?
  {
    if RestoreSpec(suite, key, objects, e).Success? {
      RestoreSpecSound(suite, key, objects, e);
    }
  }

  /**
   * The checks run in order: a Merkle root mismatch is only reported for a file
   * whose every chunk opened and whose whole-file hash matched.
   */
  lemma MerkleCheckedLast(suite: Suite, key: Key, objects: map<Hash, Bytes>, e: FileEntry, expected: string, got: string)
    requires RestoreSpec(suite, key, objects, e) == Failure(Restore(MerkleRootMismatch(expected, got)))
    ensures Reassemble(suite, key, objects, e.chunkHashes).Success?
    ensures Hex(suite.sha256(Reassemble(suite, key, objects, e.chunkHashes).value)) == e.fileSHA256
    ensures expected == e.merkleRoot && got == MerkleRootOf(suite, e.chunkHashes) && expected != got
  {
    ReassembleExactly(suite, key, objects, e.chunkHashes);
  }

  /** The chunk loop's accumulator in front of what the remaining chunks give. */
  function Joined(done: Bytes, rest: Result<Bytes, RestoreFailure>): Result<Bytes, RestoreFailure>
  {
    match rest
    case Failure(e) => Failure(e)
    case Success(d) => Success(done + d)
  }

  lemma JoinedStep(suite: Suite, key: Key, objects: map<Hash, Bytes>, done: Bytes, hs: seq<Hash>)
    requires hs != [] && OpenChunk(suite, key, objects, hs[0]).Success?
    ensures Joined(done, Reassemble(suite, key, objects, hs))
         == Joined(done + OpenChunk(suite, key, objects, hs[0]).value, Reassemble(suite, key, objects, hs[1..]))
  {
    var first := OpenChunk(suite, key, objects, hs[0]).value;
    var rest := Reassemble(suite, key, objects, hs[1..]);
    if rest.Success? {
      assert done + (first + rest.value) == done + first + rest.value;
    }
  }

  lemma JoinedFail(suite: Suite, key: Key, objects: map<Hash, Bytes>, done: Bytes, hs: seq<Hash>)
    requires hs != [] && OpenChunk(suite, key, objects, hs[0]).Failure?
    ensures Joined(done, Reassemble(suite, key, objects, hs)) == Failure(OpenChunk(suite, key, objects, hs[0]).error)
  {
  }

  // ---------------------------------------------------------------- the tree

  /** `appendingPathComponent`. */
  function Join(root: string, component: string): string
  {
    root + "/" + component
  }

  /** `deletingLastPathComponent`: everything before the last `/`. */
  function ParentOf(path: string): (parent: string)
    ensures |parent| <= |path| && parent == path[..|parent|]
  {
    if path == [] then []
    else if path[|path| - 1] == '/' then path[..|path| - 1]
    else ParentOf(path[..|path| - 1])
  }

  /** A relative path without a directory part lands directly in the destination root. */
  lemma {:induction false} ParentOfJoin(root: string, name: string)
    requires '/' !in name
    ensures ParentOf(Join(root, name)) == root
    decreases |name|
  {
    if name == [] {
      assert Join(root, name) == root + "/";
    } else {
      var p := Join(root, name);
      assert p[..|p| - 1] == Join(root, name[..|name| - 1]);
      ParentOfJoin(root, name[..|name| - 1]);
    }
  }

  /** `pathExtension == "json"`, read as the name ending in `.json`. */
  predicate IsJsonName(name: string)
  {
    |name| >= 5 && name[|name| - 5..] == ".json"
  }

  /** One listing item of `restoreAll`: skipped unless JSON, else decoded, its directory made, restored. */
  function RestoreListing(suite: Suite, key: Key, objects: map<Hash, Bytes>, destRoot: string,
                          l: Listing, io: RestoreIo, t: Tree): (res: (Tree, Outcome<RestoreFailure>))
    ensures !IsJsonName(l.name) ==> res == (t, Pass)
    ensures IsJsonName(l.name) && l.entry.None? ==> res == (t, Fail(EntryUnreadable(l.name)))
    ensures res.1.Fail? ==> res.0.files == t.files
    ensures t.dirs <= res.0.dirs
    ensures res.1.Pass? && IsJsonName(l.name) ==>
      l.entry.Some?
      && ParentOf(Join(destRoot, l.entry.value.path)) in res.0.dirs
      && RestoreSpec(suite, key, objects, l.entry.value).Success?
      && res.0.files == t.files[Join(destRoot, l.entry.value.path) := RestoreSpec(suite, key, objects, l.entry.value).value]
  {
    if !IsJsonName(l.name) then (t, Pass)
    else
      match l.entry
      case None => (t, Fail(EntryUnreadable(l.name)))
      case Some(e) =>
        var dest := Join(destRoot, e.path);
        var parent := ParentOf(dest);
        if io.mkdirFails(parent) then (t, Fail(CreateDirectoryFailed(parent)))
        else
          var (files, o) := RestoreFileOf(suite, key, objects, e, dest, io.writeFails(dest), t.files);
          (Tree(files, t.dirs + {parent}), o)
  }

  function RestoreEach(suite: Suite, key: Key, objects: map<Hash, Bytes>, destRoot: string,
                       ls: seq<Listing>, io: RestoreIo, t: Tree): (Tree, Outcome<RestoreFailure>)
    decreases |ls|
  {
    if ls == [] then (t, Pass)
    else
      var (t', o) := RestoreListing(suite, key, objects, destRoot, ls[0], io, t);
      if o.Fail? then (t', o) else RestoreEach(suite, key, objects, destRoot, ls[1..], io, t')
  }

  /** `restoreAll(to:)`. */
  function RestoreAllOf(suite: Suite, key: Key, snap: Snapshot, destRoot: string, io: RestoreIo, t: Tree): (Tree, Outcome<RestoreFailure>)
  {
    match snap.files
    case NoFilesDir => (t, Fail(Restore(FilesDirectoryNotFound)))
    case NotListable => (t, Fail(ListingFailed))
    case Listed(ls) => RestoreEach(suite, key, snap.objects, destRoot, ls, io, t)
  }

  /**
   * Before any item is looked at, `restoreAll` fails with `filesDirectoryNotFound`
   * exactly when `files` is absent and with the listing error exactly when it
   * cannot be listed, restoring nothing either way.
   */
  lemma RestoreAllDirectory(suite: Suite, key: Key, snap: Snapshot, destRoot: string, io: RestoreIo, t: Tree)
    ensures RestoreAllOf(suite, key, snap, destRoot, io, t).1 == Fail(Restore(FilesDirectoryNotFound))
      <==> snap.files.NoFilesDir?
    ensures RestoreAllOf(suite, key, snap, destRoot, io, t).1 == Fail(ListingFailed) <==> snap.files.NotListable?
    ensures !snap.files.Listed? ==> RestoreAllOf(suite, key, snap, destRoot, io, t).0 == t
  {
    if snap.files.Listed? {
      RestoreEachNeverDirectoryError(suite, key, snap.objects, destRoot, snap.files.items, io, t);
    }
  }

  /** Restoring listed items never reports a problem with the `files` directory itself. */
  lemma {:induction false} RestoreEachNeverDirectoryError(suite: Suite, key: Key, objects: map<Hash, Bytes>,
                                                         destRoot: string, ls: seq<Listing>, io: RestoreIo, t: Tree)
    ensures RestoreEach(suite, key, objects, destRoot, ls, io, t).1 != Fail(Restore(FilesDirectoryNotFound))
    ensures RestoreEach(suite, key, objects, destRoot, ls, io, t).1 != Fail(ListingFailed)
    decreases |ls|
  {
    if ls != [] {
      var (t', o) := RestoreListing(suite, key, objects, destRoot, ls[0], io, t);
      if o.Pass? {
        RestoreEachNeverDirectoryError(suite, key, objects, destRoot, ls[1..], io, t');
      }
    }
  }

  function JsonListings(ls: seq<Listing>): (js: seq<Listing>)
    ensures forall i :: 0 <= i < |js| ==> IsJsonName(js[i].name)
    ensures |js| <= |ls|
  {
    if ls == [] then []
    else if IsJsonName(ls[0].name) then [ls[0]] + JsonListings(ls[1..])
    else JsonListings(ls[1..])
  }

  /** Only the `.json` items of the listing matter; everything else is passed over. */
  lemma {:induction false} RestoreEachJsonOnly(suite: Suite, key: Key, objects: map<Hash, Bytes>, destRoot: string,
                                              ls: seq<Listing>, io: RestoreIo, t: Tree)
    ensures RestoreEach(suite, key, objects, destRoot, ls, io, t)
         == RestoreEach(suite, key, objects, destRoot, JsonListings(ls), io, t)
    decreases |ls|
  {
    if ls != [] {
      var t1 := RestoreListing(suite, key, objects, destRoot, ls[0], io, t).0;
      RestoreEachJsonOnly(suite, key, objects, destRoot, ls[1..], io, t1);
      if IsJsonName(ls[0].name) {
        var js := JsonListings(ls);
        assert js[0] == ls[0] && js[1..] == JsonListings(ls[1..]);
      } else {
        RestoreEachJsonOnly(suite, key, objects, destRoot, ls[1..], io, t);
      }
    }
  }

  /**
   * `restoreAll` stops at the first failing item: the items before it all
   * succeeded and nothing after it is attempted.
   */
  lemma {:induction false} RestoreEachFailure(suite: Suite, key: Key, objects: map<Hash, Bytes>, destRoot: string,
                                             ls: seq<Listing>, io: RestoreIo, t: Tree) returns (i: nat)
    requires RestoreEach(suite, key, objects, destRoot, ls, io, t).1.Fail?
    ensures i < |ls|
    ensures RestoreEach(suite, key, objects, destRoot, ls[..i], io, t).1.Pass?
    ensures RestoreListing(suite, key, objects, destRoot, ls[i], io,
                           RestoreEach(suite, key, objects, destRoot, ls[..i], io, t).0)
         == RestoreEach(suite, key, objects, destRoot, ls, io, t)
    decreases |ls|
  {
    var (t1, o) := RestoreListing(suite, key, objects, destRoot, ls[0], io, t);
    if o.Fail? {
      i := 0;
      assert ls[..0] == [];
    } else {
      var i' := RestoreEachFailure(suite, key, objects, destRoot, ls[1..], io, t1);
      i := i' + 1;
      assert ls[..i][0] == ls[0] && ls[..i][1..] == ls[1..][..i'];
      assert ls[i] == ls[1..][i'];
    }
  }

  /** The tree only grows: no file is removed and no directory forgotten, whatever fails. */
  lemma {:induction false} RestoreEachGrows(suite: Suite, key: Key, objects: map<Hash, Bytes>, destRoot: string,
                                           ls: seq<Listing>, io: RestoreIo, t: Tree)
    ensures t.files.Keys <= RestoreEach(suite, key, objects, destRoot, ls, io, t).0.files.Keys
    ensures t.dirs <= RestoreEach(suite, key, objects, destRoot, ls, io, t).0.dirs
    decreases |ls|
  {
    if ls != [] {
      RestoreEachGrows(suite, key, objects, destRoot, ls[1..], io,
                       RestoreListing(suite, key, objects, destRoot, ls[0], io, t).0);
    }
  }

  /** The destination a JSON item with a decodable entry is restored to. */
  function Destination(destRoot: string, l: Listing): string
    requires l.entry.Some?
  {
    Join(destRoot, l.entry.value.path)
  }

  /** A path no item of the listing restores to keeps its previous contents. */
  lemma {:induction false} RestoreEachLeavesOthers(suite: Suite, key: Key, objects: map<Hash, Bytes>, destRoot: string,
                                                  ls: seq<Listing>, io: RestoreIo, t: Tree, p: string)
    requires p in t.files
    requires forall j :: 0 <= j < |ls| && ls[j].entry.Some? ==> Destination(destRoot, ls[j]) != p
    ensures p in RestoreEach(suite, key, objects, destRoot, ls, io, t).0.files
    ensures RestoreEach(suite, key, objects, destRoot, ls, io, t).0.files[p] == t.files[p]
    decreases |ls|
  {
    if ls != [] {
      var t1 := RestoreListing(suite, key, objects, destRoot, ls[0], io, t).0;
      assert t1.files[p] == t.files[p];
      forall j | 0 <= j < |ls[1..]| && ls[1..][j].entry.Some?
        ensures Destination(destRoot, ls[1..][j]) != p
      {
        assert ls[1..][j] == ls[j + 1];
      }
      RestoreEachLeavesOthers(suite, key, objects, destRoot, ls[1..], io, t1, p);
    }
  }

  /**
   * A successful `restoreAll` decoded and verified every `.json` item, and each
   * destination written by no later item holds exactly that item's verified data.
   */
  lemma {:induction false} RestoreEachSuccess(suite: Suite, key: Key, objects: map<Hash, Bytes>, destRoot: string,
                                             ls: seq<Listing>, io: RestoreIo, t: Tree, i: int)
    requires RestoreEach(suite, key, objects, destRoot, ls, io, t).1.Pass?
    requires 0 <= i < |ls| && IsJsonName(ls[i].name)
    ensures ls[i].entry.Some?
    ensures RestoreSpec(suite, key, objects, ls[i].entry.value).Success?
    ensures Destination(destRoot, ls[i]) in RestoreEach(suite, key, objects, destRoot, ls, io, t).0.files
    ensures ParentOf(Destination(destRoot, ls[i])) in RestoreEach(suite, key, objects, destRoot, ls, io, t).0.dirs
    ensures (forall j :: i < j < |ls| && ls[j].entry.Some? ==> Destination(destRoot, ls[j]) != Destination(destRoot, ls[i])) ==>
      RestoreEach(suite, key, objects, destRoot, ls, io, t).0.files[Destination(destRoot, ls[i])]
        == RestoreSpec(suite, key, objects, ls[i].entry.value).value
    decreases |ls|
  {
    var t1 := RestoreListing(suite, key, objects, destRoot, ls[0], io, t).0;
    if i == 0 {
      var p := Destination(destRoot, ls[0]);
      RestoreEachGrows(suite, key, objects, destRoot, ls[1..], io, t1);
      if forall j :: 0 < j < |ls| && ls[j].entry.Some? ==> Destination(destRoot, ls[j]) != p {
        forall j | 0 <= j < |ls[1..]| && ls[1..][j].entry.Some?
          ensures Destination(destRoot, ls[1..][j]) != p
        {
          assert ls[1..][j] == ls[j + 1];
        }
        RestoreEachLeavesOthers(suite, key, objects, destRoot, ls[1..], io, t1, p);
      }
    } else {
      assert ls[1..][i - 1] == ls[i];
      RestoreEachSuccess(suite, key, objects, destRoot, ls[1..], io, t1, i - 1);
      if forall j :: i < j < |ls| && ls[j].entry.Some? ==> Destination(destRoot, ls[j]) != Destination(destRoot, ls[i]) {
        forall j | i - 1 < j < |ls[1..]| && ls[1..][j].entry.Some?
          ensures Destination(destRoot, ls[1..][j]) != Destination(destRoot, ls[1..][i - 1])
        {
          assert ls[1..][j] == ls[j + 1];
        }
      }
    }
  }

  // ---------------------------------------------------------------- the restorer

  class BackupRestorer {
    const snapshotRoot: string
    const key: Key
    const suite: Suite
    const snapshot: Snapshot
    var files: map<string, Bytes>
    var dirs: set<string>

    function Restored(): Tree
      reads this
    {
      Tree(files, dirs)
    }

    /** `init(snapshotURL:encryptionKey:)`, over the snapshot found there and the destination as it is. */
    constructor(snapshotRoot: string, encryptionKey: Key, suite: Suite, snapshot: Snapshot, existing: Tree)
      ensures this.snapshotRoot == snapshotRoot && key == encryptionKey && this.suite == suite
      ensures this.snapshot == snapshot && Restored() == existing
    {
      this.snapshotRoot := snapshotRoot;
      this.key := encryptionKey;
      this.suite := suite;
      this.snapshot := snapshot;
      this.files := existing.files;
      this.dirs := existing.dirs;
    }

    /** `restoreFile(fileEntry:to:)`. */
    method RestoreFile(entry: FileEntry, dest: string, writeFails: bool) returns (o: Outcome<RestoreFailure>)
      modifies this`files
      ensures (files, o) == RestoreFileOf(suite, key, snapshot.objects, entry, dest, writeFails, old(files))
    {
      var objects := snapshot.objects;
      var hs := entry.chunkHashes;
      var restored: Bytes := [];
      assert hs[0..] == hs;
      assert Joined(restored, Reassemble(suite, key, objects, hs)) == Reassemble(suite, key, objects, hs) by {
        if Reassemble(suite, key, objects, hs).Success? {
          assert [] + Reassemble(suite, key, objects, hs).value == Reassemble(suite, key, objects, hs).value;
        }
      }
      for i := 0 to |hs|
        invariant files == old(files)
        invariant Reassemble(suite, key, objects, hs) == Joined(restored, Reassemble(suite, key, objects, hs[i..]))
      {
        var h := hs[i];
        assert hs[i..][0] == h && hs[i..][1..] == hs[i + 1..];
        if h !in objects {
          JoinedFail(suite, key, objects, restored, hs[i..]);
          return Fail(Restore(MissingChunk(h)));
        }
        var encrypted := objects[h];
        var box := suite.open(key, encrypted);
        if box.NotASealedBox? {
          JoinedFail(suite, key, objects, restored, hs[i..]);
          return Fail(Restore(DecryptionFailed(h)));
        }
        if box.AuthenticationFailure? {
          JoinedFail(suite, key, objects, restored, hs[i..]);
          return Fail(AuthenticationFailed);
        }
        var decompressed := Decompress(suite.compression, box.plaintext);
        if decompressed.None? {
          JoinedFail(suite, key, objects, restored, hs[i..]);
          return Fail(Restore(DecompressionFailed(h)));
        }
        var hex := Hex(suite.sha256(box.plaintext));
        if hex != h {
          JoinedFail(suite, key, objects, restored, hs[i..]);
          return Fail(Restore(ChecksumMismatch(h, hex)));
        }
        JoinedStep(suite, key, objects, restored, hs[i..]);
        restored := restored + decompressed.value;
      }
      assert restored + [] == restored;
      var fileHex := Hex(suite.sha256(restored));
      if fileHex != entry.fileSHA256 {
        return Fail(Restore(FileChecksumMismatch(entry.fileSHA256, fileHex)));
      }
      var computed := MerkleRoot(suite, hs);
      if computed != entry.merkleRoot {
        return Fail(Restore(MerkleRootMismatch(entry.merkleRoot, computed)));
      }
      if writeFails {
        return Fail(WriteFailed(dest));
      }
      files := files[dest := restored];
      return Pass;
    }

    /** `restoreAll(to:)`. */
    method RestoreAll(destRoot: string, io: RestoreIo) returns (o: Outcome<RestoreFailure>)
      modifies this`files, this`dirs
      ensures (Restored(), o) == RestoreAllOf(suite, key, snapshot, destRoot, io, old(Restored()))
    {
      if snapshot.files.NoFilesDir? {
        return Fail(Restore(FilesDirectoryNotFound));
      }
      if snapshot.files.NotListable? {
        return Fail(ListingFailed);
      }
      var ls := snapshot.files.items;
      for i := 0 to |ls|
        invariant RestoreAllOf(suite, key, snapshot, destRoot, io, old(Restored()))
               == RestoreEach(suite, key, snapshot.objects, destRoot, ls[i..], io, Restored())
      {
        var item := ls[i];
        assert ls[i..][0] == item && ls[i..][1..] == ls[i + 1..];
        if !IsJsonName(item.name) {
          continue;
        }
        if item.entry.None? {
          return Fail(EntryUnreadable(item.name));
        }
        var entry := item.entry.value;
        var dest := Join(destRoot, entry.path);
        var parent := ParentOf(dest);
        if io.mkdirFails(parent) {
          return Fail(CreateDirectoryFailed(parent));
        }
        dirs := dirs + {parent};
        o := RestoreFile(entry, dest, io.writeFails(dest));
        if o.Fail? {
          return;
        }
      }
      return Pass;
    }
  }
}
