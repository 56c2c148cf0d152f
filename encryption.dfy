/** EncryptionUtil: encrypts photo bytes under the managed key with
    AES/CBC/PKCS5Padding and a fresh random IV, and stores the IV in front of the
    ciphertext; decryption takes the IV back off the front. The random IV is a
    parameter of `Encrypt`. */
module Encryption {
  import opened Base
  import opened AesCbc
  import opened SecretKeys

  const IvLength: nat := 16

  /** The payload written for a message: the IV, then the ciphertext. */
  function Frame(iv: Block, ciphertext: seq<Byte>): (r: seq<Byte>)
    ensures |r| == IvLength + |ciphertext|
    ensures r[..IvLength] == iv && r[IvLength..] == ciphertext
  {
    iv + ciphertext
  }

  /** `cipher.init` and `cipher.doFinal` in encrypt mode under a loaded key: a key
      that is not 16, 24 or 32 bytes long is an InvalidKeyException; otherwise the
      result is the framed ciphertext, strictly longer than IV plus message. */
  function EncryptWithKey(aes: BlockCipher, key: seq<Byte>, iv: Block, data: seq<Byte>): (r: Result<seq<Byte>>)
    ensures r.Ok? <==> IsAesKeyLength(key)
    ensures r.Err? ==> r.error.Other?
    ensures r.Ok? ==> IvLength + |data| < |r.value| <= IvLength + |data| + BlockSize && |r.value| % BlockSize == 0
    ensures r.Ok? ==> r.value[..IvLength] == iv && r.value[IvLength..] == AesCbc.Encrypt(aes, key, iv, data)
  {
    if !IsAesKeyLength(key) then Err(Other("Invalid AES key length: " + IntToString(|key|) + " bytes"))
    else Ok(Frame(iv, AesCbc.Encrypt(aes, key, iv, data)))
  }

  /** The IV `Arrays.copyOfRange(payload, 0, 16)` gives: the first sixteen bytes,
      zero-filled when the payload is shorter. */
  function IvOf(payload: seq<Byte>): (iv: Block)
    ensures |payload| >= IvLength ==> iv == payload[..IvLength]
    ensures forall i :: 0 <= i < IvLength ==> iv[i] == if i < |payload| then payload[i] else 0
  {
    seq(IvLength, i requires 0 <= i < IvLength => if i < |payload| then payload[i] else 0)
  }

  /** Decryption under a loaded key. A payload shorter than the IV makes
      `Arrays.copyOfRange(payload, 16, length)` throw an IllegalArgumentException
      ("16 > length"); a bad key length is an InvalidKeyException; otherwise the
      rest of the payload is decrypted under the IV in front. */
  function DecryptWithKey(aes: BlockCipher, key: seq<Byte>, payload: seq<Byte>): (r: Result<seq<Byte>>)
    ensures |payload| < IvLength ==> r.Err? && r.error.IllegalArgument?
    ensures |payload| >= IvLength && !IsAesKeyLength(key) ==> r.Err? && r.error.Other?
    ensures |payload| >= IvLength && IsAesKeyLength(key) ==>
      r == AesCbc.Decrypt(aes, key, payload[..IvLength], payload[IvLength..])
    ensures r.Ok? ==> |r.value| + IvLength <= |payload|
  {
    if |payload| < IvLength then
      Err(IllegalArgument(IntToString(IvLength) + " > " + IntToString(|payload|)))
    else if !IsAesKeyLength(key) then
      Err(Other("Invalid AES key length: " + IntToString(|key|) + " bytes"))
    else
      AesCbc.Decrypt(aes, key, IvOf(payload), payload[IvLength..])
  }

  /** Under one key, decrypting what was encrypted gives the data back. */
  lemma RoundTripWithKey(aes: BlockCipher, key: seq<Byte>, iv: Block, data: seq<Byte>)
    requires IsBlockCipher(aes)
    requires IsAesKeyLength(key)
    ensures EncryptWithKey(aes, key, iv, data).Ok?
    ensures DecryptWithKey(aes, key, EncryptWithKey(aes, key, iv, data).value) == Ok(data)
  {
    var payload := EncryptWithKey(aes, key, iv, data).value;
    assert payload[..IvLength] == iv;
    AesCbc.DecryptEncrypt(aes, key, iv, data);
  }

  /** `encrypt(data)` as a transition of the key file: obtain the key (generating
      `candidate` when there is no file), then encrypt under it. */
  function EncryptStep(aes: BlockCipher, file: Option<string>, candidate: Key256, iv: Block, data: seq<Byte>): (r: (Option<string>, Result<seq<Byte>>))
    ensures r.0 == KeyStep(file, candidate).0
    ensures LoadSecretKey(r.0.value).Ok? ==> r.1 == EncryptWithKey(aes, LoadSecretKey(r.0.value).value, iv, data)
    ensures LoadSecretKey(r.0.value).Err? ==> r.1 == Err(LoadSecretKey(r.0.value).error)
    ensures r.1.Ok? <==> LoadSecretKey(r.0.value).Ok? && IsAesKeyLength(LoadSecretKey(r.0.value).value)
  {
    var (next, key) := KeyStep(file, candidate);
    match key
    case Err(e) => (next, Err(e))
    case Ok(k) => (next, EncryptWithKey(aes, k, iv, data))
  }

  /** `decrypt(payload)` as a transition of the key file. */
  function DecryptStep(aes: BlockCipher, file: Option<string>, candidate: Key256, payload: seq<Byte>): (r: (Option<string>, Result<seq<Byte>>))
    ensures r.0 == KeyStep(file, candidate).0
    ensures LoadSecretKey(r.0.value).Ok? ==> r.1 == DecryptWithKey(aes, LoadSecretKey(r.0.value).value, payload)
    ensures LoadSecretKey(r.0.value).Err? ==> r.1 == Err(LoadSecretKey(r.0.value).error)
    ensures LoadSecretKey(r.0.value).Ok? && |payload| < IvLength ==> r.1.Err? && r.1.error.IllegalArgument?
  {
    var (next, key) := KeyStep(file, candidate);
    match key
    case Err(e) => (next, Err(e))
    case Ok(k) => (next, DecryptWithKey(aes, k, payload))
  }

  /** The round trip through the key manager: whatever key a later call would
      have generated, decrypting with the key file left by a successful
      encryption gives the data back and leaves that file as it was. */
  lemma StepRoundTrip(aes: BlockCipher, file: Option<string>, c1: Key256, c2: Key256, iv: Block, data: seq<Byte>)
    requires IsBlockCipher(aes)
    requires EncryptStep(aes, file, c1, iv, data).1.Ok?
    ensures var (after, payload) := EncryptStep(aes, file, c1, iv, data);
      DecryptStep(aes, after, c2, payload.value) == (after, Ok(data))
  {
    var (after, payload) := EncryptStep(aes, file, c1, iv, data);
    var key := LoadSecretKey(after.value).value;
    RoundTripWithKey(aes, key, iv, data);
    assert KeyStep(after, c2) == (after, Ok(key));
  }

  /** A freshly generated key always has a valid AES length, so the call that
      generates the key never fails to encrypt. */
  lemma FreshKeyEncrypts(aes: BlockCipher, candidate: Key256, iv: Block, data: seq<Byte>)
    ensures EncryptStep(aes, None, candidate, iv, data).1 == EncryptWithKey(aes, candidate, iv, data)
    ensures EncryptStep(aes, None, candidate, iv, data).1.Ok?
  {
  }

  /** EncryptionUtil, holding the key manager it asks for the key on every call
      and the AES provider. */
  class EncryptionUtil {
    const keys: SecretKeyGenerator
    const aes: BlockCipher

    constructor (keys: SecretKeyGenerator, aes: BlockCipher)
      ensures this.keys == keys && this.aes == aes
    {
      this.keys := keys;
      this.aes := aes;
    }

    method Encrypt(data: seq<Byte>, iv: Block, candidate: Key256) returns (r: Result<seq<Byte>>)
      modifies keys
      ensures (keys.keyFile, r) == EncryptStep(aes, old(keys.keyFile), candidate, iv, data)
    {
      var key := keys.LoadOrGenerateSecretKey(candidate);
      if key.Err? {
        return Err(key.error);
      }
      if !IsAesKeyLength(key.value) {
        return Err(Other("Invalid AES key length: " + IntToString(|key.value|) + " bytes"));
      }
      var encrypted := AesCbc.Encrypt(aes, key.value, iv, data);
      var withIv := PrependIv(iv, encrypted);
      r := Ok(withIv);
    }

    method Decrypt(payload: seq<Byte>, candidate: Key256) returns (r: Result<seq<Byte>>)
      modifies keys
      ensures (keys.keyFile, r) == DecryptStep(aes, old(keys.keyFile), candidate, payload)
    {
      var key := keys.LoadOrGenerateSecretKey(candidate);
      if key.Err? {
        return Err(key.error);
      }
      if |payload| < IvLength {
        return Err(IllegalArgument(IntToString(IvLength) + " > " + IntToString(|payload|)));
      }
      r := DecryptWithKey(aes, key.value, payload);
    }
  }

  /** The two `System.arraycopy` calls that put the IV in front of the
      ciphertext in a fresh array. */
  method PrependIv(iv: Block, encrypted: seq<Byte>) returns (out: seq<Byte>)
    ensures out == Frame(iv, encrypted)
  {
    var a := new Byte[IvLength + |encrypted|];
    var i := 0;
    while i < IvLength
      invariant 0 <= i <= IvLength
      invariant forall j :: 0 <= j < i ==> a[j] == iv[j]
    {
      a[i] := iv[i];
      i := i + 1;
    }
    var k := 0;
    while k < |encrypted|
      invariant 0 <= k <= |encrypted|
      invariant forall j :: 0 <= j < IvLength ==> a[j] == iv[j]
      invariant forall j :: 0 <= j < k ==> a[IvLength + j] == encrypted[j]
    {
      a[IvLength + k] := encrypted[k];
      k := k + 1;
    }
    out := a[..];
    assert out[..IvLength] == iv;
    assert out[IvLength..] == encrypted;
    assert out == iv + encrypted;
  }
}
