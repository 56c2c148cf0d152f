/** The key manager (SecretKeyGenerator): one AES key kept, Base64-encoded, in
    the file `secretKey.key`. The first call that finds no file generates a
    256-bit key and writes it; every other call reads the file back. The file is
    the `keyFile` field (None while it does not exist); the freshly generated
    key is a parameter, since it comes from a random source. */
module SecretKeys {
  import opened Base
  import Base64

  const SecretKeyFile: string := "secretKey.key"
  const KeyLengthBits: nat := 256

  /** A key as KeyGenerator.getInstance("AES") initialised to 256 bits makes it. */
  type Key256 = k: seq<Byte> | |k| == KeyLengthBits / 8 witness seq(32, _ => 0)

  /** `reader.readLine()` on a file: null when the file is empty, otherwise the
      text before the first line terminator. */
  function FirstLine(content: string): (r: Option<string>)
    ensures r.None? <==> content == []
    ensures r.Some? ==> |r.value| <= |content| && r.value == content[..|r.value|]
    ensures r.Some? ==> forall i :: 0 <= i < |r.value| ==> r.value[i] != '\n' && r.value[i] != '\r'
    ensures r.Some? && |r.value| < |content| ==> content[|r.value|] == '\n' || content[|r.value|] == '\r'
  {
    if content == [] then None else Some(LineAt(content))
  }

  function LineAt(s: string): (r: string)
    ensures |r| <= |s| && r == s[..|r|]
    ensures forall i :: 0 <= i < |r| ==> r[i] != '\n' && r[i] != '\r'
    ensures |r| < |s| ==> s[|r|] == '\n' || s[|r|] == '\r'
  {
    if s == [] || s[0] == '\n' || s[0] == '\r' then [] else [s[0]] + LineAt(s[1..])
  }

  /** loadSecretKeyFromFile on the given file content: the first line is
      Base64-decoded and wrapped as an AES key. An empty file gives a null line,
      which the decoder rejects with a NullPointerException; text that is not
      Base64 is an IllegalArgumentException, and so is a line that decodes to no
      bytes, which SecretKeySpec refuses as an empty key. */
  function LoadSecretKey(content: string): (r: Result<seq<Byte>>)
    ensures r.Ok? ==> |r.value| > 0
    ensures content == [] ==> r.Err? && r.error.Other?
  {
    match FirstLine(content)
    case None => Err(Other("Cannot invoke \"String.getBytes\" because \"src\" is null"))
    case Some(line) =>
      match Base64.Decode(line)
      case Err(e) => Err(e)
      case Ok(bytes) => if |bytes| == 0 then Err(IllegalArgument("Empty key")) else Ok(bytes)
  }

  /** saveSecretKeyToFile: the file holds exactly the Base64 text of the key. */
  function SavedContent(key: seq<Byte>): string {
    Base64.Encode(key)
  }

  /** Loading what was saved gives back the same key bytes. */
  lemma LoadAfterSave(key: seq<Byte>)
    requires |key| > 0
    ensures LoadSecretKey(SavedContent(key)) == Ok(key)
  {
    var text := SavedContent(key);
    Base64.EncodeHasNoLineBreak(key);
    assert LineAt(text) == text;
    Base64.DecodeEncode(key);
  }

  /** One call of loadOrGenerateSecretKey, as a transition of the key file:
      the new file and the key returned. Whichever branch is taken, afterwards
      the file exists and the key returned is what loading that file gives. */
  function KeyStep(file: Option<string>, candidate: Key256): (r: (Option<string>, Result<seq<Byte>>))
    ensures r.0.Some? && r.1 == LoadSecretKey(r.0.value)
    ensures file.Some? ==> r.0 == file
    ensures file.None? ==> r.1 == Ok(candidate)
  {
    match file
    case Some(content) => (file, LoadSecretKey(content))
    case None =>
      LoadAfterSave(candidate);
      (Some(SavedContent(candidate)), Ok(candidate))
  }

  /** The results of a run of calls, each with the key it would generate were
      the file missing, and the file afterwards. */
  function Calls(file: Option<string>, candidates: seq<Key256>): (r: (Option<string>, seq<Result<seq<Byte>>>))
    ensures |r.1| == |candidates|
    decreases |candidates|
  {
    if candidates == [] then (file, [])
    else
      var (next, key) := KeyStep(file, candidates[0]);
      var (last, keys) := Calls(next, candidates[1..]);
      (last, [key] + keys)
  }

  /** Idempotence: every call of a run returns exactly what the first call
      returned, and the file written by the first call is never changed. */
  lemma {:induction false} CallsAgree(file: Option<string>, candidates: seq<Key256>)
    requires |candidates| > 0
    ensures var (last, keys) := Calls(file, candidates);
      last == KeyStep(file, candidates[0]).0 &&
      forall i :: 0 <= i < |keys| ==> keys[i] == keys[0]
    decreases |candidates|
  {
    var (next, key) := KeyStep(file, candidates[0]);
    if |candidates| > 1 {
      CallsAgree(next, candidates[1..]);
      assert KeyStep(next, candidates[1]) == (next, key);
    }
  }

  /** The key manager with its key file. */
  class SecretKeyGenerator {
    var keyFile: Option<string>

    constructor (existing: Option<string>)
      ensures keyFile == existing
    {
      keyFile := existing;
    }

    /** loadOrGenerateSecretKey: load the key when the file exists, otherwise
        generate `candidate` and save it. */
    method LoadOrGenerateSecretKey(candidate: Key256) returns (key: Result<seq<Byte>>)
      modifies this
      ensures (keyFile, key) == KeyStep(old(keyFile), candidate)
      ensures keyFile.Some? && key == LoadSecretKey(keyFile.value)
      ensures old(keyFile).Some? ==> keyFile == old(keyFile)
    {
      if keyFile.Some? {
        key := LoadSecretKeyFromFile();
      } else {
        key := GenerateAndSaveSecretKey(candidate);
      }
    }

    method GenerateAndSaveSecretKey(candidate: Key256) returns (key: Result<seq<Byte>>)
      modifies this
      ensures keyFile == Some(SavedContent(candidate)) && key == Ok(candidate)
    {
      SaveSecretKeyToFile(candidate);
      key := Ok(candidate);
    }

    method SaveSecretKeyToFile(key: seq<Byte>)
      modifies this
      ensures keyFile == Some(Base64.Encode(key))
    {
      keyFile := Some(Base64.Encode(key));
    }

    /** Only called once the file is known to exist. */
    method LoadSecretKeyFromFile() returns (key: Result<seq<Byte>>)
      requires keyFile.Some?
      ensures key == LoadSecretKey(keyFile.value)
    {
      key := LoadSecretKey(keyFile.value);
    }
  }
}
