/** PhotoManagerServiceImpl: the upload pipeline (format check, decode, size
    check, plan, optional resize, encrypt, save), the batch loop over the files
    of a request, lookups by stored file name, and delete by id. The random
    UUID, the clock readings, the random IV and the key that would be generated
    are drawn from an UploadEnv per upload. */
module PhotoManager {
  import opened Base
  import opened AesCbc
  import opened SecretKeys
  import opened Encryption
  import opened ImageProcessing
  import opened Photos

  /** A part of the multipart request. */
  datatype MultipartFile = MultipartFile(originalFilename: Option<string>, contentType: Option<string>, bytes: seq<Byte>)

  predicate IsEmpty(f: MultipartFile) {
    |f.bytes| == 0
  }

  predicate IsHexDigit(c: char) {
    '0' <= c <= '9' || 'a' <= c <= 'f'
  }

  /** The text of `UUID.randomUUID()`: 36 characters, hyphens at positions 8,
      13, 18 and 23, lower-case hexadecimal digits elsewhere. */
  predicate IsUuidText(s: string) {
    |s| == 36 &&
    forall i :: 0 <= i < |s| ==> if i == 8 || i == 13 || i == 18 || i == 23 then s[i] == '-' else IsHexDigit(s[i])
  }

  type UuidText = s: string | IsUuidText(s) witness "00000000-0000-0000-0000-000000000000"

  /** What one upload draws from outside: the UUID, the clock when the record is
      created and when resizing is done, the IV, and the key generated should
      the key file be missing. */
  datatype UploadEnv = UploadEnv(token: UuidText, uploadedAt: Timestamp, processedAt: Timestamp, iv: Block, candidate: Key256)

  const InvalidFormatMessage: string := "Invalid file format. Only PNG and JPG are allowed."
  const TooLargeMessage: string := "Image size exceeds maximum allowed dimensions (5000x5000)."

  /** The suffix of a file name from its last `.`, or nothing when the name is
      missing or holds no `.`. */
  function Extension(name: Option<string>): (ext: string)
    ensures name.None? || '.' !in name.value ==> ext == []
    ensures name.Some? && '.' in name.value ==>
      0 < |ext| <= |name.value| && ext == name.value[|name.value| - |ext|..] && ext[0] == '.' && '.' !in ext[1..]
  {
    match name
    case None => ""
    case Some(n) =>
      ContainsChar(n, '.');
      if Contains(n, ".") then n[LastIndexOf(n, '.')..] else ""
  }

  /** generateUniqueFileName: the UUID followed by the original extension. */
  function GenerateUniqueFileName(token: UuidText, original: Option<string>): (r: string)
    ensures |r| >= |token| && r[..|token|] == token && r[|token|..] == Extension(original)
  {
    token + Extension(original)
  }

  /** The stored name has the same extension as the original name, because the
      UUID holds no `.`. */
  lemma KeepsExtension(token: UuidText, original: Option<string>)
    ensures Extension(Some(GenerateUniqueFileName(token, original))) == Extension(original)
  {
    var r := GenerateUniqueFileName(token, original);
    var ext := Extension(original);
    assert '.' !in token by {
      forall i | 0 <= i < |token| ensures token[i] != '.' {
        assert IsUuidText(token);
      }
    }
    if ext == [] {
      assert r == token;
    } else {
      var k := |token|;
      assert r[k] == '.';
      forall j | k < j < |r| ensures r[j] != '.' {
        assert r[j] == ext[1..][j - k - 1];
      }
      LastIndexOfIs(r, '.', k);
      assert r[k..] == ext;
    }
  }

  lemma LastIndexOfIs(s: string, c: char, k: int)
    requires 0 <= k < |s| && s[k] == c
    requires forall j :: k < j < |s| ==> s[j] != c
    ensures LastIndexOf(s, c) == k
  {
  }

  /** The record built for an upload before it is encrypted, and the bytes to
      encrypt. */
  datatype Prepared = Prepared(photo: Photo, payload: seq<Byte>)

  /** The fields copied into a new record, whatever the plan. */
  predicate CopiedFrom(p: Photo, file: MultipartFile, env: UploadEnv, size: ImageSize) {
    p.id.None? &&
    p.originalFileName == file.originalFilename &&
    p.fileName == GenerateUniqueFileName(env.token, file.originalFilename) &&
    p.contentType == file.contentType &&
    p.fileSize == |file.bytes| &&
    p.originalWidth == size.width && p.originalHeight == size.height &&
    p.encryptedData == [] &&
    p.uploadedAt == env.uploadedAt
  }

  /** The three checks an upload must pass: the format, decoding, and the size. */
  predicate PassesChecks(cfg: PhotoConfiguration, img: ImagingBackends, file: MultipartFile) {
    IsValidImageFormat(cfg, file.contentType) == Ok(true) && img.readImage(file.bytes).Some? &&
    IsValidImageSize(cfg, img.readImage(file.bytes).value.width, img.readImage(file.bytes).value.height) == Ok(true)
  }

  /** The resize plan for the decoded image. */
  function PlanOf(cfg: PhotoConfiguration, img: ImagingBackends, file: MultipartFile): Option<Dimension>
    requires img.readImage(file.bytes).Some?
  {
    CalculateNewDimensions(cfg, img.readImage(file.bytes).value)
  }

  /** Resizing the upload to its plan. */
  function ResizedTo(img: ImagingBackends, file: MultipartFile, plan: Dimension): Result<seq<Byte>> {
    ResizeImage(img, file.bytes, plan.width, plan.height, file.contentType)
  }

  /** processAndSavePhoto up to the encryption: the format check, then decoding,
      then the size check, each of which may reject the upload; then the record
      and the plan, resizing when the plan asks for it. */
  function PreparePhoto(cfg: PhotoConfiguration, img: ImagingBackends, file: MultipartFile, env: UploadEnv): (r: Result<Prepared>)
    ensures IsValidImageFormat(cfg, file.contentType).Err? ==> r == Err(IsValidImageFormat(cfg, file.contentType).error)
    ensures IsValidImageFormat(cfg, file.contentType) == Ok(false) ==> r == Err(IllegalArgument(InvalidFormatMessage))
    ensures IsValidImageFormat(cfg, file.contentType) == Ok(true) && img.readImage(file.bytes).None? ==> r == Err(UnreadableImage)
    ensures (IsValidImageFormat(cfg, file.contentType) == Ok(true) && img.readImage(file.bytes).Some? &&
      IsValidImageSize(cfg, img.readImage(file.bytes).value.width, img.readImage(file.bytes).value.height).Err?) ==>
      r == Err(NullConfiguration)
    ensures PassesChecks(cfg, img, file) && PlanOf(cfg, img, file).None? ==> r.Ok?
    ensures PassesChecks(cfg, img, file) && PlanOf(cfg, img, file).Some? ==>
      (r.Ok? <==> ResizedTo(img, file, PlanOf(cfg, img, file).value).Ok?) &&
      (r.Err? ==> r == Err(ResizedTo(img, file, PlanOf(cfg, img, file).value).error))
    ensures (IsValidImageFormat(cfg, file.contentType) == Ok(true) && GetImageDimensions(img, file.bytes).Ok? &&
      IsValidImageSize(cfg, img.readImage(file.bytes).value.width, img.readImage(file.bytes).value.height) == Ok(false)) ==>
      r == Err(IllegalArgument(TooLargeMessage))
    ensures r.Ok? ==> IsValidImageFormat(cfg, file.contentType) == Ok(true) && img.readImage(file.bytes).Some?
    ensures r.Ok? ==> var size := img.readImage(file.bytes).value;
      IsValidImageSize(cfg, size.width, size.height) == Ok(true) && CopiedFrom(r.value.photo, file, env, size)
    ensures r.Ok? ==> var size := img.readImage(file.bytes).value; var plan := CalculateNewDimensions(cfg, size); var p := r.value.photo;
      (p.isProcessed <==> plan.Some?) &&
      (plan.Some? ==>
        p.resizedWidth == plan.value.width && p.resizedHeight == plan.value.height &&
        p.processedAt == Some(env.processedAt) &&
        ResizeImage(img, file.bytes, plan.value.width, plan.value.height, file.contentType) == Ok(r.value.payload)) &&
      (plan.None? ==>
        p.resizedWidth == size.width && p.resizedHeight == size.height &&
        p.processedAt.None? && r.value.payload == file.bytes)
  {
    match IsValidImageFormat(cfg, file.contentType)
    case Err(e) => Err(e)
    case Ok(formatOk) =>
      if !formatOk then Err(IllegalArgument(InvalidFormatMessage))
      else
        match GetImageDimensions(img, file.bytes)
        case Err(e) => Err(e)
        case Ok(size) =>
          match IsValidImageSize(cfg, size.width, size.height)
          case Err(e) => Err(e)
          case Ok(sizeOk) =>
            if !sizeOk then Err(IllegalArgument(TooLargeMessage))
            else
              var photo := Photo(None, file.originalFilename, GenerateUniqueFileName(env.token, file.originalFilename),
                file.contentType, |file.bytes|, size.width, size.height, 0, 0, [], env.uploadedAt, None, false);
              match CalculateNewDimensions(cfg, size)
              case None =>
                Ok(Prepared(photo.(resizedWidth := size.width, resizedHeight := size.height), file.bytes))
              case Some(plan) =>
                match ResizeImage(img, file.bytes, plan.width, plan.height, file.contentType)
                case Err(e) => Err(e)
                case Ok(resized) =>
                  Ok(Prepared(photo.(resizedWidth := plan.width, resizedHeight := plan.height,
                    processedAt := Some(env.processedAt), isProcessed := true), resized))
  }

  /** Whatever the plan, with non-negative bounds the stored size never exceeds
      the original nor any configured bound. */
  lemma StoredSizeWithinBounds(cfg: PhotoConfiguration, img: ImagingBackends, file: MultipartFile, env: UploadEnv)
    requires cfg.maxWidth.Some? ==> cfg.maxWidth.value >= 0
    requires cfg.maxHeight.Some? ==> cfg.maxHeight.value >= 0
    requires PreparePhoto(cfg, img, file, env).Ok?
    ensures var p := PreparePhoto(cfg, img, file, env).value.photo;
      0 <= p.resizedWidth <= p.originalWidth && 0 <= p.resizedHeight <= p.originalHeight &&
      (cfg.maxWidth.Some? ==> p.resizedWidth <= cfg.maxWidth.value) &&
      (cfg.maxHeight.Some? ==> p.resizedHeight <= cfg.maxHeight.value)
  {
    var size := img.readImage(file.bytes).value;
    if CalculateNewDimensions(cfg, size).Some? {
      PlanWithinBounds(cfg, size);
    }
  }

  /** processAndSavePhoto as a transition of the key file and the identity
      counter: an upload rejected before encryption leaves the key file alone;
      otherwise the payload is encrypted and the record, holding exactly the
      cipher output, is saved under the next id. */
  function UploadStep(aes: BlockCipher, cfg: PhotoConfiguration, img: ImagingBackends, keyFile: Option<string>, nextId: int,
                      file: MultipartFile, env: UploadEnv): (r: (Option<string>, Result<Photo>))
    ensures PreparePhoto(cfg, img, file, env).Err? ==> r == (keyFile, Err(PreparePhoto(cfg, img, file, env).error))
    ensures PreparePhoto(cfg, img, file, env).Ok? ==> r.0 == EncryptStep(aes, keyFile, env.candidate, env.iv, PreparePhoto(cfg, img, file, env).value.payload).0
    ensures r.1.Ok? ==> PreparePhoto(cfg, img, file, env).Ok?
    ensures r.1.Ok? ==>
      var prep := PreparePhoto(cfg, img, file, env).value;
      var enc := EncryptStep(aes, keyFile, env.candidate, env.iv, prep.payload).1;
      enc.Ok? && r.1.value == prep.photo.(id := Some(nextId), encryptedData := enc.value) && MeetsNotNull(r.1.value)
    ensures r.1.Ok? ==> r.1.value.id == Some(nextId)
    ensures (PreparePhoto(cfg, img, file, env).Ok? &&
      EncryptStep(aes, keyFile, env.candidate, env.iv, PreparePhoto(cfg, img, file, env).value.payload).1.Err?) ==>
      r.1 == Err(EncryptStep(aes, keyFile, env.candidate, env.iv, PreparePhoto(cfg, img, file, env).value.payload).1.error)
    ensures (PreparePhoto(cfg, img, file, env).Ok? &&
      EncryptStep(aes, keyFile, env.candidate, env.iv, PreparePhoto(cfg, img, file, env).value.payload).1.Ok?) ==>
      (r.1.Ok? <==> MeetsNotNull(PreparePhoto(cfg, img, file, env).value.photo)) &&
      (r.1.Err? ==> r.1 == Err(NotNullViolation))
  {
    match PreparePhoto(cfg, img, file, env)
    case Err(e) => (keyFile, Err(e))
    case Ok(prep) =>
      var (next, enc) := EncryptStep(aes, keyFile, env.candidate, env.iv, prep.payload);
      match enc
      case Err(e) => (next, Err(e))
      case Ok(data) =>
        var photo := prep.photo.(encryptedData := data);
        if !MeetsNotNull(photo) then (next, Err(NotNullViolation))
        else (next, Ok(photo.(id := Some(nextId))))
  }

  /** An upload is saved when it passes the checks, its resize (if planned)
      succeeds, it names its original file, and the key is either still to be
      generated or loads with a length AES accepts. */
  lemma ValidUploadIsSaved(aes: BlockCipher, cfg: PhotoConfiguration, img: ImagingBackends, keyFile: Option<string>, nextId: int,
                           file: MultipartFile, env: UploadEnv)
    requires PassesChecks(cfg, img, file)
    requires PlanOf(cfg, img, file).Some? ==> ResizedTo(img, file, PlanOf(cfg, img, file).value).Ok?
    requires file.originalFilename.Some?
    requires keyFile.Some? ==> LoadSecretKey(keyFile.value).Ok? && IsAesKeyLength(LoadSecretKey(keyFile.value).value)
    ensures UploadStep(aes, cfg, img, keyFile, nextId, file, env).1.Ok?
  {
    var prep := PreparePhoto(cfg, img, file, env).value;
    var size := img.readImage(file.bytes).value;
    assert CopiedFrom(prep.photo, file, env, size);
    if keyFile.None? {
      FreshKeyEncrypts(aes, env.candidate, env.iv, prep.payload);
    }
  }

  /** What a batch leaves behind: the key file, the records saved (they stay
      saved even when a later file fails), and the failure, if any. */
  datatype BatchOutcome = BatchOutcome(keyFile: Option<string>, saved: seq<Photo>, failure: Option<Exception>)

  function NonEmptyCount(files: seq<MultipartFile>): (n: nat)
    ensures n <= |files|
    decreases |files|
  {
    if files == [] then 0 else (if IsEmpty(files[0]) then 0 else 1) + NonEmptyCount(files[1..])
  }

  /** One upload as a transition of the key file, given the next id. */
  type UploadFn = (Option<string>, int, MultipartFile, UploadEnv) -> (Option<string>, Result<Photo>)

  /** `upload` is the pipeline UploadStep over the given cipher, configuration
      and imaging backends. */
  ghost predicate Implements(upload: UploadFn, aes: BlockCipher, cfg: PhotoConfiguration, img: ImagingBackends) {
    forall kf, n, f, e {:trigger UploadStep(aes, cfg, img, kf, n, f, e)} :: upload(kf, n, f, e) == UploadStep(aes, cfg, img, kf, n, f, e)
  }

  /** processAndSavePhotos: the files in order, empty ones skipped, stopping at
      the first failure; each saved record consumes one id. With no failure
      there is exactly one record per non-empty file, and a batch of empty
      files does nothing at all. */
  function RunBatch(upload: UploadFn, keyFile: Option<string>, nextId: int,
                    files: seq<MultipartFile>, envs: seq<UploadEnv>): (o: BatchOutcome)
    requires |files| == |envs|
    ensures |o.saved| <= NonEmptyCount(files)
    ensures o.failure.None? ==> |o.saved| == NonEmptyCount(files)
    ensures NonEmptyCount(files) == 0 ==> o == BatchOutcome(keyFile, [], None)
    decreases |files|
  {
    if files == [] then
      BatchOutcome(keyFile, [], None)
    else if IsEmpty(files[0]) then
      RunBatch(upload, keyFile, nextId, files[1..], envs[1..])
    else
      var (next, result) := upload(keyFile, nextId, files[0], envs[0]);
      match result
      case Err(e) => BatchOutcome(next, [], Some(e))
      case Ok(photo) =>
        var rest := RunBatch(upload, next, nextId + 1, files[1..], envs[1..]);
        rest.(saved := [photo] + rest.saved)
  }

  /** Records whose ids run consecutively from `first`. */
  predicate IdsFrom(saved: seq<Photo>, first: int) {
    forall i :: 0 <= i < |saved| ==> saved[i].id == Some(first + i)
  }

  /** When every upload that succeeds gives its record the id it was handed, the
      records of a batch take consecutive ids from the counter's value before
      the batch. */
  lemma {:induction false} BatchIds(upload: UploadFn, keyFile: Option<string>, nextId: int,
                                    files: seq<MultipartFile>, envs: seq<UploadEnv>)
    requires |files| == |envs|
    requires forall kf, n, f, e :: upload(kf, n, f, e).1.Ok? ==> upload(kf, n, f, e).1.value.id == Some(n)
    ensures IdsFrom(RunBatch(upload, keyFile, nextId, files, envs).saved, nextId)
    decreases |files|
  {
    if files == [] {
    } else if IsEmpty(files[0]) {
      BatchIds(upload, keyFile, nextId, files[1..], envs[1..]);
      var o := RunBatch(upload, keyFile, nextId, files, envs);
      var rest := RunBatch(upload, keyFile, nextId, files[1..], envs[1..]);
      assert o == rest;
      forall i | 0 <= i < |o.saved| ensures o.saved[i].id == Some(nextId + i) {
        assert o.saved[i] == rest.saved[i];
      }
    } else {
      var step := upload(keyFile, nextId, files[0], envs[0]);
      var (next, result) := step;
      if result.Ok? {
        assert result.value.id == Some(nextId);
        BatchIds(upload, next, nextId + 1, files[1..], envs[1..]);
        var rest := RunBatch(upload, next, nextId + 1, files[1..], envs[1..]);
        var o := RunBatch(upload, keyFile, nextId, files, envs);
        assert o.saved == [result.value] + rest.saved;
        assert o.saved[0] == result.value;
        forall i | 0 <= i < |o.saved| ensures o.saved[i].id == Some(nextId + i) {
          if i > 0 {
            assert o.saved[i] == rest.saved[i - 1];
          }
        }
      }
    }
  }

  /** The batch from position `i` on, when file `i` is empty. */
  lemma RunBatchSkips(upload: UploadFn, keyFile: Option<string>, nextId: int, files: seq<MultipartFile>, envs: seq<UploadEnv>, i: int)
    requires |files| == |envs| && 0 <= i < |files| && IsEmpty(files[i])
    ensures RunBatch(upload, keyFile, nextId, files[i..], envs[i..]) == RunBatch(upload, keyFile, nextId, files[i + 1..], envs[i + 1..])
  {
    assert files[i..][1..] == files[i + 1..] && envs[i..][1..] == envs[i + 1..];
  }

  /** The batch from position `i` on, when file `i` is not empty: a failed
      upload ends the batch, a successful one is followed by the rest. */
  lemma RunBatchUploads(upload: UploadFn, keyFile: Option<string>, nextId: int, files: seq<MultipartFile>, envs: seq<UploadEnv>, i: int)
    requires |files| == |envs| && 0 <= i < |files| && !IsEmpty(files[i])
    ensures upload(keyFile, nextId, files[i], envs[i]).1.Err? ==>
      RunBatch(upload, keyFile, nextId, files[i..], envs[i..]) ==
        BatchOutcome(upload(keyFile, nextId, files[i], envs[i]).0, [], Some(upload(keyFile, nextId, files[i], envs[i]).1.error))
    ensures upload(keyFile, nextId, files[i], envs[i]).1.Ok? ==>
      RunBatch(upload, keyFile, nextId, files[i..], envs[i..]) ==
        AfterSaved([upload(keyFile, nextId, files[i], envs[i]).1.value],
          RunBatch(upload, upload(keyFile, nextId, files[i], envs[i]).0, nextId + 1, files[i + 1..], envs[i + 1..]))
  {
    assert files[i..][1..] == files[i + 1..] && envs[i..][1..] == envs[i + 1..];
    assert files[i..][0] == files[i] && envs[i..][0] == envs[i];
  }

  /** The photos one request saves get consecutive ids. */
  lemma UploadIdsConsecutive(upload: UploadFn, aes: BlockCipher, cfg: PhotoConfiguration, img: ImagingBackends,
                             keyFile: Option<string>, nextId: int, files: seq<MultipartFile>, envs: seq<UploadEnv>)
    requires Implements(upload, aes, cfg, img)
    requires |files| == |envs|
    ensures IdsFrom(RunBatch(upload, keyFile, nextId, files, envs).saved, nextId)
  {
    forall kf, n, f, e ensures upload(kf, n, f, e).1.Ok? ==> upload(kf, n, f, e).1.value.id == Some(n) {
      assert upload(kf, n, f, e) == UploadStep(aes, cfg, img, kf, n, f, e);
    }
    BatchIds(upload, keyFile, nextId, files, envs);
  }

  /** The records already saved, put in front of what the rest of the batch does. */
  function AfterSaved(saved: seq<Photo>, o: BatchOutcome): BatchOutcome {
    o.(saved := saved + o.saved)
  }

  lemma AfterSavedTwice(first: seq<Photo>, second: seq<Photo>, o: BatchOutcome)
    ensures AfterSaved(first, AfterSaved(second, o)) == AfterSaved(first + second, o)
  {
    assert first + (second + o.saved) == (first + second) + o.saved;
  }

  const NotFoundByName: string := "Photo not found with name: "

  /** getPhotoData as a transition of the key file: a name no row holds is an
      IllegalArgumentException and the key manager is not consulted; otherwise
      the stored payload is decrypted. */
  function PhotoDataStep(aes: BlockCipher, keyFile: Option<string>, candidate: Key256, rows: seq<Photo>, name: string): (r: (Option<string>, Result<seq<Byte>>))
    ensures LookupFileName(rows, name) == Ok(None) ==> r == (keyFile, Err(IllegalArgument(NotFoundByName + name)))
    ensures LookupFileName(rows, name).Err? ==> r.0 == keyFile && r.1.Err? && r.1.error.Other?
    ensures LookupFileName(rows, name).Ok? && LookupFileName(rows, name).value.Some? ==>
      r == DecryptStep(aes, keyFile, candidate, LookupFileName(rows, name).value.value.encryptedData)
  {
    match LookupFileName(rows, name)
    case Err(e) => (keyFile, Err(e))
    case Ok(found) =>
      match found
      case None => (keyFile, Err(IllegalArgument(NotFoundByName + name)))
      case Some(p) => DecryptStep(aes, keyFile, candidate, p.encryptedData)
  }

  /** getPhotoMetadata on the rows. */
  function MetadataOf(rows: seq<Photo>, name: string): (r: Result<PhotoMetadata>)
    ensures LookupFileName(rows, name) == Ok(None) ==> r == Err(IllegalArgument(NotFoundByName + name))
    ensures LookupFileName(rows, name).Err? ==> r == Err(LookupFileName(rows, name).error)
    ensures LookupFileName(rows, name).Ok? && LookupFileName(rows, name).value.Some? ==>
      r == Ok(ToMetadata(LookupFileName(rows, name).value.value))
    ensures r.Ok? ==> (LookupFileName(rows, name).Ok? && LookupFileName(rows, name).value.Some? &&
      r.value == ToMetadata(LookupFileName(rows, name).value.value) && r.value.fileName == name)
  {
    match LookupFileName(rows, name)
    case Err(e) => Err(e)
    case Ok(found) =>
      match found
      case None => Err(IllegalArgument(NotFoundByName + name))
      case Some(p) => Ok(ToMetadata(p))
  }

  /** Upload, then download: when the stored name is new to the table, reading
      the photo back under the name it was stored with gives exactly the bytes
      that were encrypted (the resized image, or the original when no resize was
      planned), whatever key a later call would generate, and leaves the key
      file as the upload left it. */
  lemma UploadThenDownload(aes: BlockCipher, cfg: PhotoConfiguration, img: ImagingBackends, keyFile: Option<string>, nextId: int,
                           rows: seq<Photo>, file: MultipartFile, env: UploadEnv, later: Key256)
    requires IsBlockCipher(aes)
    requires UploadStep(aes, cfg, img, keyFile, nextId, file, env).1.Ok?
    requires var p := UploadStep(aes, cfg, img, keyFile, nextId, file, env).1.value;
      forall i :: 0 <= i < |rows| ==> rows[i].fileName != p.fileName
    ensures var (after, saved) := UploadStep(aes, cfg, img, keyFile, nextId, file, env);
      PhotoDataStep(aes, after, later, rows + [saved.value], saved.value.fileName) ==
        (after, Ok(PreparePhoto(cfg, img, file, env).value.payload))
  {
    var (after, saved) := UploadStep(aes, cfg, img, keyFile, nextId, file, env);
    var p := saved.value;
    var table := rows + [p];
    FindsUniqueName(table, |rows|);
    var prep := PreparePhoto(cfg, img, file, env).value;
    StepRoundTrip(aes, keyFile, env.candidate, later, env.iv, prep.payload);
  }

  /** PhotoManagerServiceImpl with its collaborators. */
  class PhotoManagerService {
    const repository: PhotoRepository
    const encryption: EncryptionUtil
    const imaging: ImagingBackends
    const config: PhotoConfiguration
    /** The per-file pipeline, as a value the batch can be stated over. */
    ghost const upload: UploadFn

    ghost predicate Wired() {
      Implements(upload, encryption.aes, config, imaging)
    }

    constructor (repository: PhotoRepository, encryption: EncryptionUtil, imaging: ImagingBackends, config: PhotoConfiguration)
      ensures this.repository == repository && this.encryption == encryption
      ensures this.imaging == imaging && this.config == config
      ensures Wired()
    {
      this.repository := repository;
      this.encryption := encryption;
      this.imaging := imaging;
      this.config := config;
      upload := (kf, n, f, e) => UploadStep(encryption.aes, config, imaging, kf, n, f, e);
    }

    method ProcessAndSavePhoto(file: MultipartFile, env: UploadEnv) returns (r: Result<Photo>)
      requires repository.Valid()
      modifies repository, encryption.keys
      ensures repository.Valid()
      ensures (encryption.keys.keyFile, r) ==
        UploadStep(encryption.aes, config, imaging, old(encryption.keys.keyFile), old(repository.nextId), file, env)
      ensures r.Ok? ==> repository.rows == old(repository.rows) + [r.value] && repository.nextId == old(repository.nextId) + 1
      ensures r.Err? ==> repository.rows == old(repository.rows) && repository.nextId == old(repository.nextId)
    {
      var prepared := PreparePhoto(config, imaging, file, env);
      if prepared.Err? {
        return Err(prepared.error);
      }
      var encrypted := encryption.Encrypt(prepared.value.payload, env.iv, env.candidate);
      if encrypted.Err? {
        return Err(encrypted.error);
      }
      var photo := prepared.value.photo.(encryptedData := encrypted.value);
      r := repository.Save(photo);
    }

    method ProcessAndSavePhotos(files: seq<MultipartFile>, envs: seq<UploadEnv>) returns (r: Result<seq<Photo>>)
      requires |files| == |envs|
      requires repository.Valid() && Wired()
      modifies repository, encryption.keys
      ensures repository.Valid()
      ensures var o := RunBatch(upload, old(encryption.keys.keyFile), old(repository.nextId), files, envs);
        encryption.keys.keyFile == o.keyFile &&
        repository.rows == old(repository.rows) + o.saved &&
        repository.nextId == old(repository.nextId) + |o.saved| &&
        r == (if o.failure.None? then Ok(o.saved) else Err(o.failure.value))
    {
      ghost var whole := RunBatch(upload, encryption.keys.keyFile, repository.nextId, files, envs);
      ghost var rows0 := repository.rows;
      ghost var next0 := repository.nextId;
      var saved: seq<Photo> := [];
      var i := 0;
      while i < |files|
        invariant 0 <= i <= |files|
        invariant repository.Valid()
        invariant repository.rows == rows0 + saved && repository.nextId == next0 + |saved|
        invariant whole == AfterSaved(saved, RunBatch(upload, encryption.keys.keyFile, repository.nextId, files[i..], envs[i..]))
      {
        if !IsEmpty(files[i]) {
          ghost var rest := RunBatch(upload, encryption.keys.keyFile, repository.nextId, files[i..], envs[i..]);
          var photo := UploadAt(files, envs, i);
          if photo.Err? {
            assert whole == BatchOutcome(encryption.keys.keyFile, saved, Some(photo.error));
            return Err(photo.error);
          }
          AfterSavedTwice(saved, [photo.value], RunBatch(upload, encryption.keys.keyFile, repository.nextId, files[i + 1..], envs[i + 1..]));
          saved := saved + [photo.value];
        } else {
          RunBatchSkips(upload, encryption.keys.keyFile, repository.nextId, files, envs, i);
        }
        i := i + 1;
      }
      assert files[i..] == [] && envs[i..] == [];
      assert whole == BatchOutcome(encryption.keys.keyFile, saved, None);
      return Ok(saved);
    }

    /** One non-empty file of a batch: what the run from position `i` on does
        is this upload followed, when it succeeds, by the run from `i + 1`. */
    method UploadAt(files: seq<MultipartFile>, envs: seq<UploadEnv>, i: int) returns (r: Result<Photo>)
      requires |files| == |envs| && 0 <= i < |files| && !IsEmpty(files[i])
      requires repository.Valid() && Wired()
      modifies repository, encryption.keys
      ensures repository.Valid()
      ensures r.Err? ==> repository.rows == old(repository.rows) && repository.nextId == old(repository.nextId)
      ensures r.Err? ==>
        RunBatch(upload, old(encryption.keys.keyFile), old(repository.nextId), files[i..], envs[i..]) ==
          BatchOutcome(encryption.keys.keyFile, [], Some(r.error))
      ensures r.Ok? ==> repository.rows == old(repository.rows) + [r.value] && repository.nextId == old(repository.nextId) + 1
      ensures r.Ok? ==>
        RunBatch(upload, old(encryption.keys.keyFile), old(repository.nextId), files[i..], envs[i..]) ==
          AfterSaved([r.value], RunBatch(upload, encryption.keys.keyFile, repository.nextId, files[i + 1..], envs[i + 1..]))
    {
      ghost var keyFile := encryption.keys.keyFile;
      ghost var nextId := repository.nextId;
      RunBatchUploads(upload, keyFile, nextId, files, envs, i);
      assert upload(keyFile, nextId, files[i], envs[i]) == UploadStep(encryption.aes, config, imaging, keyFile, nextId, files[i], envs[i]);
      r := ProcessAndSavePhoto(files[i], envs[i]);
    }

    method GetPhotoData(name: string, candidate: Key256) returns (r: Result<seq<Byte>>)
      modifies encryption.keys
      ensures (encryption.keys.keyFile, r) == PhotoDataStep(encryption.aes, old(encryption.keys.keyFile), candidate, repository.rows, name)
    {
      var found := repository.FindByFileName(name);
      if found.Err? {
        return Err(found.error);
      }
      if found.value.None? {
        return Err(IllegalArgument(NotFoundByName + name));
      }
      r := encryption.Decrypt(found.value.value.encryptedData, candidate);
    }

    function GetPhotoMetadata(name: string): (r: Result<PhotoMetadata>)
      reads this, repository
      ensures r == MetadataOf(repository.rows, name)
    {
      MetadataOf(repository.rows, name)
    }

    /** getAllPhotosMetadata: one metadata entry per row, in table order. */
    function GetAllPhotosMetadata(): (r: seq<PhotoMetadata>)
      reads this, repository
      ensures |r| == |repository.rows|
      ensures forall i :: 0 <= i < |r| ==> r[i] == ToMetadata(repository.rows[i])
    {
      seq(|repository.rows|, i requires 0 <= i < |repository.rows| reads repository => ToMetadata(repository.rows[i]))
    }

    /** deletePhoto: an id no row holds is an IllegalArgumentException and the
        table is left alone; otherwise exactly that row goes. */
    method DeletePhoto(id: int) returns (r: Result<()>)
      requires repository.Valid()
      modifies repository
      ensures repository.Valid()
      ensures repository.nextId == old(repository.nextId)
      ensures !HasId(old(repository.rows), id) ==>
        r == Err(IllegalArgument("Photo not found with ID: " + IntToString(id))) && repository.rows == old(repository.rows)
      ensures HasId(old(repository.rows), id) ==>
        r == Ok(()) && repository.rows == WithoutId(old(repository.rows), id) &&
        |repository.rows| == |old(repository.rows)| - 1
    {
      if !repository.ExistsById(id) {
        return Err(IllegalArgument("Photo not found with ID: " + IntToString(id)));
      }
      DeleteRemovesOne(repository.rows, id);
      repository.DeleteById(id);
      r := Ok(());
    }
  }
}
