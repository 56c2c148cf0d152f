/** The "AES/CBC/PKCS5Padding" transformation that the cipher is asked for:
    cipher block chaining (section 6.2 of NIST SP 800-38A) over the AES block
    permutation, with the padding of section 6.1.1 of RFC 8018 applied to the
    16-byte AES block, as the Java cryptography provider does. AES itself is not
    modelled: it is a value of type BlockCipher, and the only thing assumed of it
    is that its inverse undoes it (IsBlockCipher). */
module AesCbc {
  import opened Base

  const BlockSize: nat := 16

  /** The message of the BadPaddingException the provider throws. */
  const BadPaddingMessage: string := "Given final block not properly padded. Such issues can arise if a bad key is used during decryption."

  type Block = b: seq<Byte> | |b| == 16 witness seq(16, _ => 0)

  /** The block permutation under a key, and its inverse. */
  datatype BlockCipher = BlockCipher(forward: (seq<Byte>, Block) -> Block, inverse: (seq<Byte>, Block) -> Block)

  ghost predicate IsBlockCipher(aes: BlockCipher) {
    forall key, b :: aes.inverse(key, aes.forward(key, b)) == b
  }

  /** The key sizes AES accepts: 128, 192 or 256 bits. */
  predicate IsAesKeyLength(key: seq<Byte>) {
    |key| == 16 || |key| == 24 || |key| == 32
  }

  /** Padding: `k` = 16 - (|m| mod 16) bytes, each holding `k`, so that at least
      one byte is always added and the result fills whole blocks. */
  function Pad(m: seq<Byte>): (p: seq<Byte>)
    ensures |p| % BlockSize == 0
    ensures |m| < |p| <= |m| + BlockSize
    ensures p[..|m|] == m
  {
    var k := BlockSize - |m| % BlockSize;
    m + seq(k, _ => k as Byte)
  }

  /** Removing the padding: the last byte `k` must lie in 1..16 and the last `k`
      bytes must all equal it. Like the provider, an empty input unpads to the
      empty message. */
  function Unpad(p: seq<Byte>): (r: Result<seq<Byte>>)
    ensures r.Ok? ==> |r.value| <= |p| && r.value == p[..|r.value|]
    ensures r.Err? ==> r.error.Other?
  {
    if |p| == 0 then
      Ok([])
    else
      var k := p[|p| - 1] as int;
      if k == 0 || k > BlockSize || k > |p| then
        Err(Other(BadPaddingMessage))
      else if exists i | |p| - k <= i < |p| :: p[i] != k as Byte then
        Err(Other(BadPaddingMessage))
      else
        Ok(p[..|p| - k])
  }

  lemma UnpadPad(m: seq<Byte>)
    ensures Unpad(Pad(m)) == Ok(m)
  {
    var k := BlockSize - |m| % BlockSize;
    var p := Pad(m);
    assert p[|p| - 1] == k as Byte;
    assert p[|p| - 1] as int == k;
  }

  function Xor(a: Block, b: Block): (r: Block)
    ensures forall i :: 0 <= i < BlockSize ==> r[i] == a[i] ^ b[i]
  {
    seq(BlockSize, i requires 0 <= i < BlockSize => a[i] ^ b[i])
  }

  lemma XorTwice(a: Block, b: Block)
    ensures Xor(Xor(a, b), b) == a
  {
    assert forall i :: 0 <= i < BlockSize ==> Xor(Xor(a, b), b)[i] == a[i];
  }

  /** CBC encryption of whole blocks: each plaintext block is XORed with the
      previous ciphertext block (the IV for the first one) and then enciphered. */
  function CbcEncrypt(aes: BlockCipher, key: seq<Byte>, prev: Block, p: seq<Byte>): (c: seq<Byte>)
    requires |p| % BlockSize == 0
    ensures |c| == |p|
    decreases |p|
  {
    if |p| == 0 then []
    else
      var block := aes.forward(key, Xor(p[..BlockSize], prev));
      block + CbcEncrypt(aes, key, block, p[BlockSize..])
  }

  /** CBC decryption of whole blocks: each ciphertext block is deciphered and
      XORed with the ciphertext block before it (the IV for the first one). */
  function CbcDecrypt(aes: BlockCipher, key: seq<Byte>, prev: Block, c: seq<Byte>): (p: seq<Byte>)
    requires |c| % BlockSize == 0
    ensures |p| == |c|
    decreases |c|
  {
    if |c| == 0 then []
    else
      var block: Block := c[..BlockSize];
      Xor(aes.inverse(key, block), prev) + CbcDecrypt(aes, key, block, c[BlockSize..])
  }

  lemma {:induction false} CbcRoundTrip(aes: BlockCipher, key: seq<Byte>, iv: Block, p: seq<Byte>)
    requires IsBlockCipher(aes)
    requires |p| % BlockSize == 0
    ensures CbcDecrypt(aes, key, iv, CbcEncrypt(aes, key, iv, p)) == p
    decreases |p|
  {
    if |p| > 0 {
      var first: Block := p[..BlockSize];
      var block := aes.forward(key, Xor(first, iv));
      var c := CbcEncrypt(aes, key, iv, p);
      assert c == block + CbcEncrypt(aes, key, block, p[BlockSize..]);
      assert c[..BlockSize] == block && c[BlockSize..] == CbcEncrypt(aes, key, block, p[BlockSize..]);
      XorTwice(first, iv);
      CbcRoundTrip(aes, key, block, p[BlockSize..]);
      assert p == first + p[BlockSize..];
    }
  }

  /** `cipher.doFinal(m)` in encrypt mode: pad, then chain. */
  function Encrypt(aes: BlockCipher, key: seq<Byte>, iv: Block, m: seq<Byte>): (c: seq<Byte>)
    ensures |c| % BlockSize == 0
    ensures |m| < |c| <= |m| + BlockSize
  {
    CbcEncrypt(aes, key, iv, Pad(m))
  }

  /** `cipher.doFinal(c)` in decrypt mode: a length that is not a whole number
      of blocks is refused, then the blocks are unchained and the padding is
      checked and removed. */
  function Decrypt(aes: BlockCipher, key: seq<Byte>, iv: Block, c: seq<Byte>): (r: Result<seq<Byte>>)
    ensures |c| % BlockSize != 0 ==> r.Err?
    ensures r.Ok? ==> |r.value| <= |c|
    ensures r.Err? ==> r.error.Other?
  {
    if |c| % BlockSize != 0 then
      Err(Other("Input length must be multiple of 16 when decrypting with padded cipher"))
    else
      Unpad(CbcDecrypt(aes, key, iv, c))
  }

  /** Decrypting under the same key and IV recovers the message. */
  lemma DecryptEncrypt(aes: BlockCipher, key: seq<Byte>, iv: Block, m: seq<Byte>)
    requires IsBlockCipher(aes)
    ensures Decrypt(aes, key, iv, Encrypt(aes, key, iv, m)) == Ok(m)
  {
    CbcRoundTrip(aes, key, iv, Pad(m));
    UnpadPad(m);
  }
}
