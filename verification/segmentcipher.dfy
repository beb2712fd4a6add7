/** The decryption context and the per-segment transform: `aesDecrypt` and
    the `aesConf.uri ? aesDecrypt(...) : file` choice in `downloadTsSeg`
    (fetcher.js). The AES-128-CBC primitive itself lives outside this model
    and is passed in as a function value. */
module SegmentCipher {
  import opened Base

  /** `decryptor.decrypt` after `expandKey(key)`: plaintext from key, IV and
      ciphertext. Nothing about it is assumed. */
  type Cipher = (Bytes, Bytes, Bytes) -> Bytes

  /** The fields of `aesConf` that steer decryption. An empty `uri` means the
      playlist declared no key; an empty `iv` means no IV was declared (the
      source keeps the string '' there). `key` is whatever `expandKey`
      received, opaque to the model (see `KeyDirective.KeyFetch`). */
  datatype AesConf = AesConf(methodName: string, uri: string, iv: Bytes, key: Bytes)

  /** `aesConf` as `prepareDownload` initialises it. */
  const NoKey := AesConf("", "", [], [])

  /** `new Uint8Array([0, ..., 0, index])`: fifteen zero bytes, then the
      segment's position in the playlist stored through `Uint8Array`'s
      modulo-256 conversion. */
  function FallbackIv(index: nat): Bytes
  {
    Zeros(15) + [index % 256]
  }

  /** `aesConf.iv || new Uint8Array([...])`: the declared IV for every
      segment, otherwise the fallback derived from the segment index. */
  function SegmentIv(conf: AesConf, index: nat): Bytes
  {
    if |conf.iv| > 0 then conf.iv else FallbackIv(index)
  }

  /** `aesDecrypt(data, index, aesConf)`. */
  function AesDecrypt(data: Bytes, index: nat, conf: AesConf, cipher: Cipher): Bytes
  {
    cipher(conf.key, SegmentIv(conf, index), data)
  }

  /** The bytes `downloadTsSeg` keeps for segment `index` after fetching
      `file`: decrypted when a key URI is set, otherwise the fetched bytes
      unchanged. */
  function SegmentData(file: Bytes, index: nat, conf: AesConf, cipher: Cipher): (data: Bytes)
    ensures conf.uri == "" ==> data == file
    ensures conf.uri != "" && |conf.iv| > 0 ==> data == cipher(conf.key, conf.iv, file)
    ensures conf.uri != "" && |conf.iv| == 0 ==>
              exists iv :: data == cipher(conf.key, iv, file) && |iv| == 16
                           && iv[..15] == Zeros(15) && iv[15] == index % 256
  {
    if conf.uri != "" then AesDecrypt(file, index, conf, cipher) else file
  }

  /** Without a declared IV, the IV of a segment is sixteen bytes: fifteen
      zeros and the index in the last byte, exactly so for indices below 256
      (segment 5 gets 0, ..., 0, 5). */
  lemma FallbackIvShape(index: nat)
    ensures |FallbackIv(index)| == 16
    ensures forall i :: 0 <= i < 15 ==> FallbackIv(index)[i] == 0
    ensures index < 256 ==> FallbackIv(index)[15] == index
  {
  }

  /** Only the low byte of the index reaches the IV: without a declared IV,
      segments 256 positions apart are decrypted with the same IV. */
  lemma {:induction false} FallbackIvWraps(conf: AesConf, index: nat)
    requires |conf.iv| == 0
    ensures SegmentIv(conf, index + 256) == SegmentIv(conf, index)
    ensures index < 256 ==> SegmentIv(conf, index) != SegmentIv(conf, index + 1)
  {
    if index < 256 {
      assert FallbackIv(index)[15] != FallbackIv(index + 1)[15];
    }
  }

  /** A declared IV is shared by every segment, whatever its index. */
  lemma DeclaredIvIsShared(conf: AesConf, i: nat, j: nat)
    requires |conf.iv| > 0
    ensures SegmentIv(conf, i) == SegmentIv(conf, j) == conf.iv
  {
  }
}
