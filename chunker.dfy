/**
 * Chunker.swift: cut the input into windows of `chunkSize` bytes, compress
 * each window, name it by the lowercase hex SHA-256 of the compressed bytes
 * (taken before encryption) and seal the compressed bytes under the chunker's
 * key. Any failure aborts the whole call: no partial list is returned.
 */
module Chunking {
  import opened Wrappers
  import opened Crypto
  import opened HexCodec

  /** `Chunker.init`'s default window: 64 KiB. */
  const DefaultChunkSize: int := 64 * 1024

  /** One `(sha256Hex, encryptedData)` pair. */
  datatype Chunk = Chunk(hash: string, ciphertext: Bytes)

  /**
   * `StorageError`, plus `SealFailed` for an error thrown by `AES.GCM.seal`
   * itself, which the `try` passes on unchanged.
   */
  datatype ChunkError = CompressionFailed | EncryptionFailed | SealFailed

  /** The windows `[offset, min(offset + n, |data|))` the loop visits, in order. */
  function Windows(data: Bytes, n: int): (ws: seq<Bytes>)
    requires n > 0
    decreases |data|
  {
    if |data| == 0 then []
    else [data[..Min(n, |data|)]] + Windows(data[Min(n, |data|)..], n)
  }

  /** The bytes `[i*n, (i+1)*n)` of the input, cut at its end. */
  function Window(data: Bytes, n: int, i: int): Bytes
    requires n > 0 && 0 <= i
  {
    data[Min(i * n, |data|)..Min((i + 1) * n, |data|)]
  }

  function Flatten(ws: seq<Bytes>): Bytes
  {
    if ws == [] then [] else ws[0] + Flatten(ws[1..])
  }

  lemma MulAtLeast(k: int, n: int)
    requires k >= 1 && n > 0
    ensures k * n >= n
  {
  }

  /** Euclidean division is determined by quotient and remainder. */
  lemma DivUnique(x: int, n: int, q: int, r: int)
    requires n > 0 && 0 <= r < n && x == q * n + r
    ensures x / n == q
  {
    var q', r' := x / n, x % n;
    assert (q' - q) * n == r - r';
    if q' - q >= 1 {
      MulAtLeast(q' - q, n);
    } else if q - q' >= 1 {
      MulAtLeast(q - q', n);
    }
  }

  /** ceil(m / n): no window for empty data, otherwise one per started n bytes. */
  lemma {:induction false} WindowsCount(data: Bytes, n: int)
    requires n > 0
    ensures |Windows(data, n)| == (|data| + n - 1) / n
    decreases |data|
  {
    if |data| > 0 {
      var m := Min(n, |data|);
      WindowsCount(data[m..], n);
      if |data| <= n {
        DivUnique(|data| + n - 1, n, 1, |data| - 1);
      } else {
        assert |data[m..]| == |data| - n;
        var q, r := (|data| - 1) / n, (|data| - 1) % n;
        assert |data| + n - 1 == (q + 1) * n + r;
        DivUnique(|data| + n - 1, n, q + 1, r);
      }
    }
  }

  /** The windows partition the input: their concatenation is the input itself. */
  lemma {:induction false} WindowsCover(data: Bytes, n: int)
    requires n > 0
    ensures Flatten(Windows(data, n)) == data
    decreases |data|
  {
    if |data| > 0 {
      var m := Min(n, |data|);
      WindowsCover(data[m..], n);
      assert Windows(data, n)[1..] == Windows(data[m..], n);
      assert data == data[..m] + data[m..];
    }
  }

  /**
   * Window i is exactly the bytes `[i*n, min((i+1)*n, |data|))`: every window
   * but the last has n bytes, and the last has between 1 and n.
   */
  lemma {:induction false} WindowsAt(data: Bytes, n: int, i: int)
    requires n > 0
    requires 0 <= i < |Windows(data, n)|
    ensures i * n < |data|
    ensures Windows(data, n)[i] == Window(data, n, i)
    ensures i < |Windows(data, n)| - 1 ==> |Windows(data, n)[i]| == n
    ensures 0 < |Windows(data, n)[i]| <= n
    decreases |data|
  {
    var rest := data[Min(n, |data|)..];
    assert Windows(data, n)[1..] == Windows(rest, n);
    if i > 0 {
      assert rest != [];
      WindowsAt(rest, n, i - 1);
      WindowShift(data, n, i);
    }
  }

  /** Dropping the first window shifts the window numbering by one. */
  lemma WindowShift(data: Bytes, n: int, i: int)
    requires n > 0 && |data| > n && i >= 1
    ensures Window(data[n..], n, i - 1) == Window(data, n, i)
    ensures (i - 1) * n + n == i * n
  {
    var a := (i - 1) * n;
    assert i * n == a + n;
    assert (i + 1) * n == a + n + n;
  }

  /** Compress, hash the compressed bytes, seal them: one window's outcome. */
  function SealWindow(suite: Suite, key: Key, nonce: Nonce, window: Bytes): (r: Result<Chunk, ChunkError>)
  {
    match Compress(suite.compression, window)
    case None => Failure(CompressionFailed)
    case Some(comp) =>
      var hash := Hex(suite.sha256(comp));
      match suite.seal(key, nonce, comp)
      case SealThrew => Failure(SealFailed)
      case Sealed(None) => Failure(EncryptionFailed)
      case Sealed(Some(combined)) => Success(Chunk(hash, combined))
  }
  /**
   * One window's outcome: `compressionFailed` exactly when compression fails;
   * otherwise a chunk named by the 64-digit hex SHA-256 of the compressed bytes,
   * whose ciphertext is the combined form of sealing them under the nonce.
   */
  lemma SealWindowOutcome(suite: Suite, key: Key, nonce: Nonce, window: Bytes)
    ensures SealWindow(suite, key, nonce, window) == Failure(CompressionFailed)
      <==> Compress(suite.compression, window).None?
    ensures SealWindow(suite, key, nonce, window).Success? ==>
      var comp := Compress(suite.compression, window).value;
      && SealWindow(suite, key, nonce, window).value.hash == Hex(suite.sha256(comp))
      && |SealWindow(suite, key, nonce, window).value.hash| == 64
      && suite.seal(key, nonce, comp) == Sealed(Some(SealWindow(suite, key, nonce, window).value.ciphertext))
  {
  }


  /** The windows sealed in order, the k-th seal drawing nonce `nonces(k)`; the first failure wins. */
  function SealAll(suite: Suite, key: Key, nonces: nat -> Nonce, ws: seq<Bytes>, k: nat): (r: Result<seq<Chunk>, ChunkError>)
    ensures r.Success? ==> |r.value| == |ws|
    decreases |ws|
  {
    if ws == [] then Success([])
    else
      match SealWindow(suite, key, nonces(k), ws[0])
      case Failure(e) => Failure(e)
      case Success(c) =>
        match SealAll(suite, key, nonces, ws[1..], k + 1)
        case Failure(e) => Failure(e)
        case Success(cs) => Success([c] + cs)
  }

  /** On success, the i-th chunk is window i sealed under nonce `nonces(k + i)`. */
  lemma {:induction false} SealAllEach(suite: Suite, key: Key, nonces: nat -> Nonce, ws: seq<Bytes>, k: nat, i: int)
    requires SealAll(suite, key, nonces, ws, k).Success? && 0 <= i < |ws|
    ensures SealWindow(suite, key, nonces(k + i), ws[i]) == Success(SealAll(suite, key, nonces, ws, k).value[i])
    decreases |ws|
  {
    if i > 0 {
      SealAllEach(suite, key, nonces, ws[1..], k + 1, i - 1);
      assert ws[1..][i - 1] == ws[i];
      assert k + 1 + (i - 1) == k + i;
    }
  }

  /** What `chunkAndEncrypt(data:)` returns for a chunker with window n. */
  function ChunkAndEncryptOf(suite: Suite, key: Key, nonces: nat -> Nonce, data: Bytes, n: int): Result<seq<Chunk>, ChunkError>
    requires n > 0
  {
    SealAll(suite, key, nonces, Windows(data, n), 0)
  }

  /** The call fails exactly when some window fails, and then with the error of the first one. */
  lemma {:induction false} SealAllFailure(suite: Suite, key: Key, nonces: nat -> Nonce, ws: seq<Bytes>, k: nat) returns (i: nat)
    requires SealAll(suite, key, nonces, ws, k).Failure?
    ensures i < |ws|
    ensures SealWindow(suite, key, nonces(k + i), ws[i]) == Failure(SealAll(suite, key, nonces, ws, k).error)
    ensures forall j :: 0 <= j < i ==> SealWindow(suite, key, nonces(k + j), ws[j]).Success?
    decreases |ws|
  {
    if SealWindow(suite, key, nonces(k), ws[0]).Failure? {
      i := 0;
    } else {
      var i' := SealAllFailure(suite, key, nonces, ws[1..], k + 1);
      i := i' + 1;
      assert k + i == k + 1 + i';
      forall j | 0 <= j < i
        ensures SealWindow(suite, key, nonces(k + j), ws[j]).Success?
      {
        if j > 0 {
          assert ws[j] == ws[1..][j - 1];
          assert k + j == k + 1 + (j - 1);
        }
      }
    }
  }

  /** Empty input yields zero chunks; otherwise a successful call yields ceil(|data| / n) of them. */
  lemma ChunkCount(suite: Suite, key: Key, nonces: nat -> Nonce, data: Bytes, n: int)
    requires n > 0
    ensures data == [] ==> ChunkAndEncryptOf(suite, key, nonces, data, n) == Success([])
    ensures ChunkAndEncryptOf(suite, key, nonces, data, n).Success? ==>
      |ChunkAndEncryptOf(suite, key, nonces, data, n).value| == (|data| + n - 1) / n
  {
    WindowsCount(data, n);
  }

  /**
   * Chunk i names window i by the lowercase hex SHA-256 of its compressed bytes
   * (64 characters), and its ciphertext is the seal of those bytes under nonce i.
   */
  lemma ChunkContents(suite: Suite, key: Key, nonces: nat -> Nonce, data: Bytes, n: int, i: int)
    requires n > 0
    requires ChunkAndEncryptOf(suite, key, nonces, data, n).Success?
    requires 0 <= i < |ChunkAndEncryptOf(suite, key, nonces, data, n).value|
    ensures var window := Window(data, n, i);
      var c := ChunkAndEncryptOf(suite, key, nonces, data, n).value[i];
      && Compress(suite.compression, window).Some?
      && c.hash == Hex(suite.sha256(Compress(suite.compression, window).value))
      && |c.hash| == 64 && IsLowerHex(c.hash)
      && suite.seal(key, nonces(i), Compress(suite.compression, window).value) == Sealed(Some(c.ciphertext))
  {
    WindowsCount(data, n);
    WindowsAt(data, n, i);
    SealAllEach(suite, key, nonces, Windows(data, n), 0, i);
    assert 0 + i == i;
  }

  /** In the fallback build the hash is of the raw window bytes. */
  lemma FallbackHashesRawWindow(suite: Suite, key: Key, nonces: nat -> Nonce, data: Bytes, n: int, i: int)
    requires n > 0 && suite.compression.Fallback?
    requires ChunkAndEncryptOf(suite, key, nonces, data, n).Success?
    requires 0 <= i < |ChunkAndEncryptOf(suite, key, nonces, data, n).value|
    ensures ChunkAndEncryptOf(suite, key, nonces, data, n).value[i].hash
      == Hex(suite.sha256(Window(data, n, i)))
  {
    ChunkContents(suite, key, nonces, data, n, i);
  }

  /** Under a sound AEAD, opening chunk i with the chunker's key returns the compressed window i. */
  lemma ChunkOpens(suite: Suite, key: Key, nonces: nat -> Nonce, data: Bytes, n: int, i: int)
    requires n > 0 && AeadSound(suite)
    requires ChunkAndEncryptOf(suite, key, nonces, data, n).Success?
    requires 0 <= i < |ChunkAndEncryptOf(suite, key, nonces, data, n).value|
    ensures var window := Window(data, n, i);
      && Compress(suite.compression, window).Some?
      && suite.open(key, ChunkAndEncryptOf(suite, key, nonces, data, n).value[i].ciphertext)
           == Opened(Compress(suite.compression, window).value)
  {
    ChunkContents(suite, key, nonces, data, n, i);
  }

  /** Sealing results already collected ahead of the outcome for the rest of the windows. */
  function Prefixed(done: seq<Chunk>, rest: Result<seq<Chunk>, ChunkError>): Result<seq<Chunk>, ChunkError>
  {
    if rest.Success? then Success(done + rest.value) else rest
  }

  /** One turn of the loop: the windows from `offset` are the one ending at `end`, then those from `end`. */
  lemma WindowsFrom(data: Bytes, n: int, offset: int)
    requires n > 0 && 0 <= offset < |data|
    ensures Windows(data[offset..], n)
      == [data[offset..Min(offset + n, |data|)]] + Windows(data[Min(offset + n, |data|)..], n)
  {
    var end := Min(offset + n, |data|);
    assert data[offset..][..Min(n, |data| - offset)] == data[offset..end];
    assert data[offset..][Min(n, |data| - offset)..] == data[end..];
  }

  /**
   * The loop's step stated on the specification: a failing window at `offset`
   * is the call's outcome, and a sealed one joins the chunks already collected.
   */
  lemma SealAllStep(suite: Suite, key: Key, nonces: nat -> Nonce, data: Bytes, n: int, offset: int, done: seq<Chunk>)
    requires n > 0 && 0 <= offset < |data|
    ensures var end := Min(offset + n, |data|);
      var r := SealWindow(suite, key, nonces(|done|), data[offset..end]);
      var whole := Prefixed(done, SealAll(suite, key, nonces, Windows(data[offset..], n), |done|));
      && (r.Failure? ==> whole == Failure(r.error))
      && (r.Success? ==> whole == Prefixed(done + [r.value], SealAll(suite, key, nonces, Windows(data[end..], n), |done| + 1)))
  {
    var end := Min(offset + n, |data|);
    WindowsFrom(data, n, offset);
    var r := SealWindow(suite, key, nonces(|done|), data[offset..end]);
    if r.Success? {
      PrefixedAppend(done, r.value, SealAll(suite, key, nonces, Windows(data[end..], n), |done| + 1));
    }
  }

  lemma PrefixedEmpty(r: Result<seq<Chunk>, ChunkError>)
    ensures Prefixed([], r) == r
  {
    if r.Success? {
      assert [] + r.value == r.value;
    }
  }

  lemma PrefixedAppend(done: seq<Chunk>, c: Chunk, rest: Result<seq<Chunk>, ChunkError>)
    ensures Prefixed(done, Prefixed([c], rest)) == Prefixed(done + [c], rest)
  {
    if rest.Success? {
      assert done + ([c] + rest.value) == (done + [c]) + rest.value;
    }
  }

  class Chunker {
    const chunkSize: int
    const key: Key
    const suite: Suite

    constructor(chunkSize: int, encryptionKey: Key, suite: Suite)
      ensures this.chunkSize == chunkSize && key == encryptionKey && this.suite == suite
    {
      this.chunkSize := chunkSize;
      this.key := encryptionKey;
      this.suite := suite;
    }

    /** One turn of `chunkAndEncrypt`'s loop: compress, hash, seal; any failure ends the call. */
    method SealSlice(slice: Bytes, nonce: Nonce) returns (r: Result<Chunk, ChunkError>)
      ensures r == SealWindow(suite, key, nonce, slice)
    {
      var comp := Compress(suite.compression, slice);
      if comp.None? {
        return Failure(CompressionFailed);
      }
      var hash := Hex(suite.sha256(comp.value));
      var sealed := suite.seal(key, nonce, comp.value);
      if sealed.SealThrew? {
        return Failure(SealFailed);
      }
      if sealed.combined.None? {
        return Failure(EncryptionFailed);
      }
      return Success(Chunk(hash, sealed.combined.value));
    }

    /**
     * `chunkAndEncrypt(data:)`. The source does not guard `chunkSize`; with a
     * non-positive window its loop would not advance, so positivity is required.
     */
    method ChunkAndEncrypt(data: Bytes, nonces: nat -> Nonce) returns (r: Result<seq<Chunk>, ChunkError>)
      requires chunkSize > 0
      ensures r == ChunkAndEncryptOf(suite, key, nonces, data, chunkSize)
    {
      var results: seq<Chunk> := [];
      var offset := 0;
      assert data[offset..] == data;
      PrefixedEmpty(ChunkAndEncryptOf(suite, key, nonces, data, chunkSize));
      while offset < |data|
        invariant 0 <= offset <= |data|
        invariant ChunkAndEncryptOf(suite, key, nonces, data, chunkSize)
          == Prefixed(results, SealAll(suite, key, nonces, Windows(data[offset..], chunkSize), |results|))
        decreases |data| - offset
      {
        var end := Min(offset + chunkSize, |data|);
        var slice := data[offset..end];
        var sealed := SealSlice(slice, nonces(|results|));
        SealAllStep(suite, key, nonces, data, chunkSize, offset, results);
        if sealed.Failure? {
          return Failure(sealed.error);
        }
        results := results + [sealed.value];
        offset := end;
      }
      assert data[offset..] == [];
      assert results + [] == results;
      return Success(results);
    }
  }
}
