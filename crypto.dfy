/**
 * The foreign primitives the backup library calls: SHA-256 (FIPS 180-4),
 * AES-GCM seal/open (NIST SP 800-38D) and the LZFSE buffer codec. None of
 * them is modelled internally; a `Suite` carries them as function values, and
 * the one property the model relies on (an AEAD opens what it sealed) is a
 * predicate that the lemmas needing it take as a precondition.
 */
module Crypto {
  import opened Wrappers

  type byte = b: int | 0 <= b < 256
  type Bytes = seq<byte>

  /** A SHA-256 digest is always 32 bytes. */
  const DigestLength: nat := 32
  type Digest = d: Bytes | |d| == DigestLength witness seq(32, _ => 0)

  type Key = Bytes
  type Nonce = Bytes

  /** `AES.GCM.seal` either throws or returns a box whose `combined` form may be absent. */
  datatype SealOutcome = SealThrew | Sealed(combined: Option<Bytes>)

  /**
   * `AES.GCM.SealedBox(combined:)` followed by `AES.GCM.open`: the bytes may not
   * parse as a box, the tag may not authenticate, or the plaintext comes back.
   */
  datatype OpenOutcome = NotASealedBox | AuthenticationFailure | Opened(plaintext: Bytes)

  /**
   * The compression strategy chosen at build time: the LZFSE buffer codec where
   * Apple's Compression framework exists, and the pass-through fallback elsewhere.
   * `encodeBuffer(src, capacity)` and `decodeBuffer(src, capacity)` give the whole
   * output the foreign call produces for a buffer of `capacity` bytes. The encoder
   * is all or nothing: output that does not fit makes it return 0. The decoder
   * writes the first `capacity` bytes of its output and returns their count.
   */
  datatype Compression =
    | Fallback
    | Lzfse(encodeBuffer: (Bytes, nat) -> Bytes, decodeBuffer: (Bytes, nat) -> Bytes)

  datatype Suite = Suite(
    sha256: Bytes -> Digest,
    seal: (Key, Nonce, Bytes) -> SealOutcome,
    open: (Key, Bytes) -> OpenOutcome,
    compression: Compression)

  /** The AEAD round trip: whatever a seal produces opens, under the same key, to the sealed message. */
  ghost predicate AeadSound(s: Suite)
  {
    forall k: Key, n: Nonce, m: Bytes ::
      s.seal(k, n, m).Sealed? && s.seal(k, n, m).combined.Some? ==>
        s.open(k, s.seal(k, n, m).combined.value) == Opened(m)
  }

  function Max(a: int, b: int): int { if a < b then b else a }
  function Min(a: int, b: int): int { if a < b then a else b }

  /** The first `capacity` bytes the decoder wrote; an empty result is the call's 0 (failure). */
  function Written(out: Bytes, capacity: nat): (r: Option<Bytes>)
    ensures r.Some? ==> 0 < |r.value| <= capacity && |r.value| <= |out| && r.value == out[..|r.value|]
    ensures r.None? <==> capacity == 0 || out == []
  {
    var n := Min(|out|, capacity);
    if n == 0 then None else Some(out[..n])
  }

  /**
   * `Chunker.compress(data:)`: the destination buffer holds max(4096, |data|)
   * bytes; an encoder result of 0, which is also what output too long for the
   * buffer gives, is a failure (nil). The fallback returns its input.
   */
  function Compress(c: Compression, data: Bytes): (r: Option<Bytes>)
    ensures c.Fallback? ==> r == Some(data)
    ensures c.Lzfse? && r.Some? ==> 0 < |r.value| <= Max(4096, |data|)
    ensures c.Lzfse? ==>
      (r.Some? <==> 0 < |c.encodeBuffer(data, Max(4096, |data|))| <= Max(4096, |data|))
    ensures c.Lzfse? && r.Some? ==> r.value == c.encodeBuffer(data, Max(4096, |data|))
  {
    match c
    case Fallback => Some(data)
    case Lzfse(encode, _) =>
      var out := encode(data, Max(4096, |data|));
      if out == [] || |out| > Max(4096, |data|) then None else Some(out)
  }

  /**
   * `BackupRestorer.decompress(data:)`: the destination buffer holds 4 * |data|
   * bytes; a decoder result of 0 is a failure (nil). The fallback returns its input.
   */
  function Decompress(c: Compression, data: Bytes): (r: Option<Bytes>)
    ensures c.Fallback? ==> r == Some(data)
    ensures c.Lzfse? && r.Some? ==> 0 < |r.value| <= 4 * |data|
  {
    match c
    case Fallback => Some(data)
    case Lzfse(_, decode) => Written(decode(data, 4 * |data|), 4 * |data|)
  }

  /**
   * The LZFSE decompressor cannot give back a window more than four times the
   * size of its compressed form, and never succeeds on empty input: a highly
   * compressible chunk does not restore.
   */
  lemma DecompressBounded(decode: (Bytes, nat) -> Bytes, encode: (Bytes, nat) -> Bytes, compressed: Bytes, original: Bytes)
    requires |original| > 4 * |compressed|
    ensures Decompress(Lzfse(encode, decode), compressed) != Some(original)
  {
  }

  /** In the fallback build compressing then decompressing gives back the input. */
  lemma FallbackRoundTrip(data: Bytes)
    ensures Compress(Fallback, data).Some?
    ensures Decompress(Fallback, Compress(Fallback, data).value) == Some(data)
  {
  }

  /** The AEAD property is satisfiable: a suite whose seal is the identity meets it. */
  lemma AeadSoundIsConsistent(hash: Bytes -> Digest)
    ensures AeadSound(Suite(hash, (k: Key, n: Nonce, m: Bytes) => Sealed(Some(m)),
                            (k: Key, c: Bytes) => Opened(c), Fallback))
  {
  }
}
