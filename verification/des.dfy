/** The Triple-DES primitive of Go's crypto/des, kept abstract.

    The DES rounds are not modelled: a `Cipher` is any pair of functions from a
    24-byte key and an 8-byte block to an 8-byte block. The only fact assumed of
    it, and only by the lemmas that need it, is `Inverts`: decryption undoes
    encryption under the same key. What the library does around the rounds is
    modelled exactly: `NewTripleDESCipher` rejects every key that is not 24
    bytes long, and `Encrypt`/`Decrypt` panic on fewer than 8 input bytes and
    read only the first 8 otherwise. */
module Des {
  import opened GoRuntime

  const KeySize: nat := 24
  const BlockSize: nat := 8

  type Key = k: Bytes | |k| == 24 witness seq(24, _ => 0)
  type Block = b: Bytes | |b| == 8 witness seq(8, _ => 0)

  /** Single-block (ECB) Triple-DES encryption and decryption. */
  datatype Cipher = Cipher(encrypt: (Key, Block) -> Block, decrypt: (Key, Block) -> Block)

  /** Decrypting under a key undoes encrypting under the same key. */
  ghost predicate Inverts(c: Cipher) {
    forall k: Key, b: Block :: c.decrypt(k, c.encrypt(k, b)) == b
  }

  /** des.NewTripleDESCipher: the key schedule accepts 24 bytes of key
      material and nothing else (Go's KeySizeError). */
  function NewTripleDesCipher(key: Bytes): (r: Outcome<Key>)
    ensures r.Ok? <==> |key| == KeySize
    ensures r.Ok? ==> r.value == key
    ensures r.Panicked? ==> r.panic == InvalidKeySize(|key|)
  {
    if |key| == KeySize then Ok(key) else Panicked(InvalidKeySize(|key|))
  }

  /** Block.Encrypt into an 8-byte buffer. */
  function Encrypt(c: Cipher, key: Key, src: Bytes): (r: Outcome<Block>)
    ensures r.Ok? <==> |src| >= BlockSize
    ensures r.Ok? ==> r.value == c.encrypt(key, src[..BlockSize])
    ensures r.Panicked? ==> r.panic == InputNotFullBlock
  {
    if |src| < BlockSize then Panicked(InputNotFullBlock)
    else Ok(c.encrypt(key, src[..BlockSize]))
  }

  /** Block.Decrypt into an 8-byte buffer. */
  function Decrypt(c: Cipher, key: Key, src: Bytes): (r: Outcome<Block>)
    ensures r.Ok? <==> |src| >= BlockSize
    ensures r.Ok? ==> r.value == c.decrypt(key, src[..BlockSize])
    ensures r.Panicked? ==> r.panic == InputNotFullBlock
  {
    if |src| < BlockSize then Panicked(InputNotFullBlock)
    else Ok(c.decrypt(key, src[..BlockSize]))
  }
}
