/** PhotoServiceImpl: the HTTP-facing layer. Every operation calls the photo
    manager and turns its outcome, or the exception it raises, into a response:
    IllegalArgumentException becomes 400 (upload) or 404 (download, delete),
    any other exception 500. */
module PhotoService {
  import opened Base
  import opened AesCbc
  import opened ImageProcessing
  import opened SecretKeys
  import opened Encryption
  import opened Photos
  import opened PhotoManager

  const StatusOk: int := 200
  const StatusBadRequest: int := 400
  const StatusNotFound: int := 404
  const StatusServerError: int := 500

  /** Response headers that are set: content type, attachment file name, length. */
  datatype Headers = Headers(contentType: string, attachment: Option<string>, contentLength: Option<int>)

  datatype Response<T> = Response(status: int, headers: Option<Headers>, body: Option<T>)

  function Bare<T>(status: int): Response<T> {
    Response(status, None, None)
  }

  /** PhotoUploadResponseDTO: the count is the length of the list, or 0 when
      there is no list. */
  datatype UploadBody = UploadBody(success: bool, message: string, uploadedPhotos: Option<seq<PhotoMetadata>>, totalUploaded: int)

  function MakeUploadBody(success: bool, message: string, photos: Option<seq<PhotoMetadata>>): (b: UploadBody)
    ensures b.success == success && b.message == message && b.uploadedPhotos == photos
    ensures b.totalUploaded == if photos.Some? then |photos.value| else 0
  {
    UploadBody(success, message, photos, if photos.Some? then |photos.value| else 0)
  }

  const NoFilesMessage: string := "No files provided"

  function MetadataList(photos: seq<Photo>): (r: seq<PhotoMetadata>)
    ensures |r| == |photos| && forall i :: 0 <= i < |r| ==> r[i] == ToMetadata(photos[i])
  {
    seq(|photos|, i requires 0 <= i < |photos| => ToMetadata(photos[i]))
  }

  /** The response `upload` builds from what processAndSavePhotos did. */
  function UploadReply(outcome: Result<seq<Photo>>): (r: Response<UploadBody>)
    ensures r.status == StatusOk <==> outcome.Ok?
    ensures r.headers.None? && r.body.Some?
    ensures r.body.value.success <==> r.status == StatusOk
    ensures outcome.Ok? ==>
      r.body.value.uploadedPhotos == Some(MetadataList(outcome.value)) && r.body.value.totalUploaded == |outcome.value| &&
      r.body.value.message == "Successfully uploaded " + NatToString(|outcome.value|) + " photo(s)"
    ensures outcome.Err? ==> r.body.value.uploadedPhotos.None? && r.body.value.totalUploaded == 0
    ensures outcome.Err? && outcome.error.IllegalArgument? ==>
      r.status == StatusBadRequest && r.body.value.message == outcome.error.message
    ensures outcome.Err? && outcome.error.Other? ==>
      r.status == StatusServerError && r.body.value.message == "Upload failed: " + outcome.error.message
  {
    match outcome
    case Ok(photos) =>
      Response(StatusOk, None, Some(MakeUploadBody(true, "Successfully uploaded " + NatToString(|photos|) + " photo(s)", Some(MetadataList(photos)))))
    case Err(IllegalArgument(m)) => Response(StatusBadRequest, None, Some(MakeUploadBody(false, m, None)))
    case Err(Other(m)) => Response(StatusServerError, None, Some(MakeUploadBody(false, "Upload failed: " + m, None)))
  }

  /** 404 for an IllegalArgumentException, 500 for anything else. */
  function FailureStatus(e: Exception): (s: int)
    ensures s == StatusNotFound <==> e.IllegalArgument?
    ensures s == StatusServerError <==> e.Other?
  {
    if e.IllegalArgument? then StatusNotFound else StatusServerError
  }

  /** The bytes of a download, with the headers that describe them. */
  function FileResponse(meta: PhotoMetadata, data: seq<Byte>, parses: string -> bool): (r: Response<seq<Byte>>)
    ensures r.status == StatusOk <==> meta.contentType.Some? && parses(meta.contentType.value)
    ensures r.status == StatusOk ==>
      r.body == Some(data) &&
      r.headers == Some(Headers(meta.contentType.value, meta.originalFileName, Some(|data|)))
    ensures r.status != StatusOk ==> r == Bare(StatusNotFound)
  {
    if meta.contentType.None? || !parses(meta.contentType.value) then Bare(StatusNotFound)
    else Response(StatusOk, Some(Headers(meta.contentType.value, meta.originalFileName, Some(|data|))), Some(data))
  }

  /** downloadFile as a transition of the key file: the metadata lookup comes
      first, so a name nobody holds is a 404 that leaves the key file alone;
      otherwise the bytes are decrypted, and the content type must parse as a
      media type (a failure to parse is an IllegalArgumentException, so 404). */
  function DownloadStep(aes: BlockCipher, keyFile: Option<string>, candidate: Key256, rows: seq<Photo>, name: string,
                        parses: string -> bool): (r: (Option<string>, Response<seq<Byte>>))
    ensures MetadataOf(rows, name).Err? ==> r == (keyFile, Bare(FailureStatus(MetadataOf(rows, name).error)))
    ensures LookupFileName(rows, name) == Ok(None) ==> r == (keyFile, Bare(StatusNotFound))
    ensures MetadataOf(rows, name).Ok? ==> r.0 == PhotoDataStep(aes, keyFile, candidate, rows, name).0
    ensures MetadataOf(rows, name).Ok? && PhotoDataStep(aes, keyFile, candidate, rows, name).1.Err? ==>
      r.1 == Bare(FailureStatus(PhotoDataStep(aes, keyFile, candidate, rows, name).1.error))
    ensures MetadataOf(rows, name).Ok? && PhotoDataStep(aes, keyFile, candidate, rows, name).1.Ok? ==>
      r.1 == FileResponse(MetadataOf(rows, name).value, PhotoDataStep(aes, keyFile, candidate, rows, name).1.value, parses)
    ensures r.1.status == StatusOk ==>
      MetadataOf(rows, name).Ok? && PhotoDataStep(aes, keyFile, candidate, rows, name).1.Ok? &&
      r.1 == FileResponse(MetadataOf(rows, name).value, PhotoDataStep(aes, keyFile, candidate, rows, name).1.value, parses)
  {
    match MetadataOf(rows, name)
    case Err(e) => (keyFile, Bare(FailureStatus(e)))
    case Ok(meta) =>
      var (next, data) := PhotoDataStep(aes, keyFile, candidate, rows, name);
      match data
      case Err(e) => (next, Bare(FailureStatus(e)))
      case Ok(bytes) => (next, FileResponse(meta, bytes, parses))
  }

  /** Upload, then download through the service: when the stored name is new to
      the table and the content type parses, the download is a 200 whose body
      is exactly the bytes that were encrypted, announced with their length,
      the content type and the original file name. */
  lemma DownloadAfterUpload(aes: BlockCipher, cfg: PhotoConfiguration, img: ImagingBackends,
                            keyFile: Option<string>, nextId: int, rows: seq<Photo>, file: MultipartFile, env: UploadEnv,
                            later: Key256, parses: string -> bool)
    requires IsBlockCipher(aes)
    requires UploadStep(aes, cfg, img, keyFile, nextId, file, env).1.Ok?
    requires var p := UploadStep(aes, cfg, img, keyFile, nextId, file, env).1.value;
      forall i :: 0 <= i < |rows| ==> rows[i].fileName != p.fileName
    requires file.contentType.Some? && parses(file.contentType.value)
    ensures var (after, saved) := UploadStep(aes, cfg, img, keyFile, nextId, file, env);
      var payload := PreparePhoto(cfg, img, file, env).value.payload;
      DownloadStep(aes, after, later, rows + [saved.value], saved.value.fileName, parses) ==
        (after, Response(StatusOk, Some(Headers(file.contentType.value, file.originalFilename, Some(|payload|))), Some(payload)))
  {
    var (after, saved) := UploadStep(aes, cfg, img, keyFile, nextId, file, env);
    var p := saved.value;
    UploadThenDownload(aes, cfg, img, keyFile, nextId, rows, file, env, later);
    FindsUniqueName(rows + [p], |rows|);
  }

  /** A ZIP entry: its name and the bytes written under it. */
  datatype ZipEntry = ZipEntry(name: string, data: seq<Byte>)

  /** `new ZipEntry(name)` refuses a name longer than this. */
  const MaxEntryNameLength: nat := 0xFFFF

  function EntryNames(entries: seq<ZipEntry>): (r: seq<string>)
    ensures |r| == |entries| && forall i :: 0 <= i < |r| ==> r[i] == entries[i].name
  {
    seq(|entries|, i requires 0 <= i < |entries| => entries[i].name)
  }

  predicate DistinctNames(entries: seq<ZipEntry>) {
    forall i, j :: 0 <= i < j < |entries| ==> entries[i].name != entries[j].name
  }

  /** One getPhotoData call as a transition of the key file: the key file, the
      key a call would generate, the table and the name. */
  type FetchFn = (Option<string>, Key256, seq<Photo>, string) -> (Option<string>, Result<seq<Byte>>)

  /** `fetch` is PhotoDataStep over the given cipher. */
  ghost predicate Fetches(fetch: FetchFn, aes: BlockCipher) {
    forall kf, c, rows, name {:trigger PhotoDataStep(aes, kf, c, rows, name)} :: fetch(kf, c, rows, name) == PhotoDataStep(aes, kf, c, rows, name)
  }

  /** The loop of downloadAllAsZip from `metas` on, after `written`: each photo
      is decrypted (which may create the key file), then entered under its
      original file name. A failed decryption, a missing name, a name that is
      too long and a name already written each abort the archive (None). On
      success every metadata entry gave one entry, in order, under its original
      name, and no two entries share a name. */
  function ZipEntries(fetch: FetchFn, keyFile: Option<string>, candidates: seq<Key256>, rows: seq<Photo>,
                      metas: seq<PhotoMetadata>, written: seq<ZipEntry>): (r: (Option<string>, Option<seq<ZipEntry>>))
    requires |candidates| == |metas|
    requires DistinctNames(written)
    ensures r.1.Some? ==> |r.1.value| == |written| + |metas| && r.1.value[..|written|] == written
    ensures r.1.Some? ==> DistinctNames(r.1.value)
    ensures r.1.Some? ==> forall k :: 0 <= k < |metas| ==> Some(r.1.value[|written| + k].name) == metas[k].originalFileName
    ensures r.1.Some? ==> forall k :: 0 <= k < |metas| ==>
      metas[k].originalFileName.Some? && |metas[k].originalFileName.value| <= MaxEntryNameLength
    decreases |metas|
  {
    if metas == [] then (keyFile, Some(written))
    else
      var (next, data) := fetch(keyFile, candidates[0], rows, metas[0].fileName);
      match data
      case Err(_) => (next, None)
      case Ok(bytes) =>
        match metas[0].originalFileName
        case None => (next, None)
        case Some(n) =>
          if |n| > MaxEntryNameLength || n in EntryNames(written) then (next, None)
          else
            var more := written + [ZipEntry(n, bytes)];
            assert DistinctNames(more) by {
              forall i | 0 <= i < |written| ensures written[i].name != n {
                assert EntryNames(written)[i] == written[i].name;
              }
            }
            var r := ZipEntries(fetch, next, candidates[1..], rows, metas[1..], more);
            assert r.1.Some? ==> r.1.value[|written|] == more[|written|] by {
              if r.1.Some? {
                assert r.1.value[..|more|] == more;
              }
            }
            r
  }

  /** Two photos stored under the same original file name make the archive
      fail. */
  lemma {:induction false} DuplicateNamesFail(fetch: FetchFn, keyFile: Option<string>, candidates: seq<Key256>, rows: seq<Photo>,
                                              metas: seq<PhotoMetadata>, i: int, j: int)
    requires |candidates| == |metas|
    requires 0 <= i < j < |metas| && metas[i].originalFileName == metas[j].originalFileName
    ensures ZipEntries(fetch, keyFile, candidates, rows, metas, []).1.None?
  {
    var r := ZipEntries(fetch, keyFile, candidates, rows, metas, []);
    if r.1.Some? {
      assert false;
    }
  }

  /** Entry `k` holds what getPhotoData returns for photo `k`. */
  ghost predicate HoldsFetched(aes: BlockCipher, keyFile: Option<string>, candidates: seq<Key256>, rows: seq<Photo>,
                               metas: seq<PhotoMetadata>, entries: seq<ZipEntry>)
    requires |candidates| == |metas| == |entries|
  {
    forall k :: 0 <= k < |metas| ==>
      PhotoDataStep(aes, keyFile, candidates[k], rows, metas[k].fileName).1 == Ok(entries[k].data)
  }

  /** Once the key file exists, fetching never changes it, and every entry of a
      completed archive holds exactly the bytes getPhotoData gives for its
      photo. */
  lemma {:induction false} ZipContents(fetch: FetchFn, aes: BlockCipher, keyFile: Option<string>, candidates: seq<Key256>,
                                       rows: seq<Photo>, metas: seq<PhotoMetadata>, written: seq<ZipEntry>)
    requires Fetches(fetch, aes) && keyFile.Some?
    requires |candidates| == |metas| && DistinctNames(written)
    ensures ZipEntries(fetch, keyFile, candidates, rows, metas, written).0 == keyFile
    ensures ZipEntries(fetch, keyFile, candidates, rows, metas, written).1.Some? ==>
      HoldsFetched(aes, keyFile, candidates, rows, metas, ZipEntries(fetch, keyFile, candidates, rows, metas, written).1.value[|written|..])
    decreases |metas|
  {
    var r := ZipEntries(fetch, keyFile, candidates, rows, metas, written);
    if metas != [] {
      var step := PhotoDataStep(aes, keyFile, candidates[0], rows, metas[0].fileName);
      assert fetch(keyFile, candidates[0], rows, metas[0].fileName) == step;
      assert step.0 == keyFile;
      if step.1.Ok? && metas[0].originalFileName.Some? {
        var n := metas[0].originalFileName.value;
        if |n| <= MaxEntryNameLength && n !in EntryNames(written) {
          var more := written + [ZipEntry(n, step.1.value)];
          assert DistinctNames(more) by {
            forall i | 0 <= i < |written| ensures written[i].name != n {
              assert EntryNames(written)[i] == written[i].name;
            }
          }
          assert r == ZipEntries(fetch, keyFile, candidates[1..], rows, metas[1..], more);
          ZipContents(fetch, aes, keyFile, candidates[1..], rows, metas[1..], more);
          if r.1.Some? {
            var entries := r.1.value[|written|..];
            var rest := r.1.value[|more|..];
            assert HoldsFetched(aes, keyFile, candidates[1..], rows, metas[1..], rest);
            forall k | 0 <= k < |metas|
              ensures PhotoDataStep(aes, keyFile, candidates[k], rows, metas[k].fileName).1 == Ok(entries[k].data)
            {
              if k == 0 {
                assert r.1.value[..|more|] == more;
                assert entries[0] == r.1.value[|written|] == more[|written|];
              } else {
                assert entries[k] == rest[k - 1];
                assert candidates[k] == candidates[1..][k - 1] && metas[k] == metas[1..][k - 1];
              }
            }
          }
        }
      }
    }
  }

  /** A photo whose bytes cannot be fetched makes the archive fail. */
  lemma FailedFetchAborts(fetch: FetchFn, aes: BlockCipher, keyFile: Option<string>, candidates: seq<Key256>,
                          rows: seq<Photo>, metas: seq<PhotoMetadata>, k: int)
    requires Fetches(fetch, aes) && keyFile.Some?
    requires |candidates| == |metas| && 0 <= k < |metas|
    requires PhotoDataStep(aes, keyFile, candidates[k], rows, metas[k].fileName).1.Err?
    ensures ZipEntries(fetch, keyFile, candidates, rows, metas, []).1.None?
  {
    ZipContents(fetch, aes, keyFile, candidates, rows, metas, []);
  }

  /** A photo without an original file name, or with one longer than a ZIP
      entry name may be, makes the archive fail. */
  lemma UnnamableEntryAborts(fetch: FetchFn, keyFile: Option<string>, candidates: seq<Key256>,
                             rows: seq<Photo>, metas: seq<PhotoMetadata>, k: int)
    requires |candidates| == |metas| && 0 <= k < |metas|
    requires metas[k].originalFileName.None? || |metas[k].originalFileName.value| > MaxEntryNameLength
    ensures ZipEntries(fetch, keyFile, candidates, rows, metas, []).1.None?
  {
  }

  const ZipHeaders: Headers := Headers("application/octet-stream", Some("photos.zip"), None)

  /** PhotoServiceImpl, over the photo manager. Whether a content type parses
      as a media type is a parameter. */
  class PhotoServiceImpl {
    const manager: PhotoManagerService
    const parses: string -> bool
    /** getPhotoData of the manager, as a value the archive can be stated over. */
    ghost const fetch: FetchFn

    ghost predicate Wired() {
      Fetches(fetch, manager.encryption.aes)
    }

    constructor (manager: PhotoManagerService, parses: string -> bool)
      ensures this.manager == manager && this.parses == parses
      ensures Wired()
    {
      this.manager := manager;
      this.parses := parses;
      fetch := (kf: Option<string>, c: Key256, rows: seq<Photo>, name: string) => PhotoDataStep(manager.encryption.aes, kf, c, rows, name);
    }

    /** upload: a missing or empty file array is a 400 without touching
        anything; otherwise the batch runs, and a 200 reports one saved photo
        per non-empty file. */
    method Upload(files: Option<seq<MultipartFile>>, envs: seq<UploadEnv>) returns (r: Response<UploadBody>)
      requires files.Some? ==> |files.value| == |envs|
      requires manager.repository.Valid() && manager.Wired()
      modifies manager.repository, manager.encryption.keys
      ensures manager.repository.Valid()
      ensures files.None? || files.value == [] ==>
        r == Response(StatusBadRequest, None, Some(MakeUploadBody(false, NoFilesMessage, None))) &&
        manager.repository.rows == old(manager.repository.rows) && manager.repository.nextId == old(manager.repository.nextId) &&
        manager.encryption.keys.keyFile == old(manager.encryption.keys.keyFile)
      ensures files.Some? && files.value != [] ==>
        var o := RunBatch(manager.upload, old(manager.encryption.keys.keyFile), old(manager.repository.nextId), files.value, envs);
        manager.encryption.keys.keyFile == o.keyFile &&
        manager.repository.rows == old(manager.repository.rows) + o.saved &&
        r == UploadReply(if o.failure.None? then Ok(o.saved) else Err(o.failure.value))
      ensures r.status == StatusOk ==> files.Some? && r.body.value.totalUploaded == NonEmptyCount(files.value)
    {
      if files.None? || |files.value| == 0 {
        return Response(StatusBadRequest, None, Some(MakeUploadBody(false, NoFilesMessage, None)));
      }
      var saved := manager.ProcessAndSavePhotos(files.value, envs);
      r := UploadReply(saved);
    }

    method DownloadFile(name: string, candidate: Key256) returns (r: Response<seq<Byte>>)
      modifies manager.encryption.keys
      ensures (manager.encryption.keys.keyFile, r) ==
        DownloadStep(manager.encryption.aes, old(manager.encryption.keys.keyFile), candidate, manager.repository.rows, name, parses)
    {
      var meta := manager.GetPhotoMetadata(name);
      if meta.Err? {
        return Bare(FailureStatus(meta.error));
      }
      var data := manager.GetPhotoData(name, candidate);
      if data.Err? {
        return Bare(FailureStatus(data.error));
      }
      r := FileResponse(meta.value, data.value, parses);
    }

    /** getAllPhotosMetadata: always 200, one entry per stored photo. */
    function GetAllPhotosMetadata(): (r: Response<seq<PhotoMetadata>>)
      reads this, manager, manager.repository
      ensures r.status == StatusOk && r.headers.None? && r.body.Some?
      ensures |r.body.value| == |manager.repository.rows|
      ensures forall i :: 0 <= i < |r.body.value| ==> r.body.value[i] == ToMetadata(manager.repository.rows[i])
    {
      Response(StatusOk, None, Some(manager.GetAllPhotosMetadata()))
    }

    /** downloadAllAsZip: 404 when nothing is stored; otherwise every photo is
        entered in table order, and any failure is a 500. One key candidate
        per stored photo, for the decryption of that photo. */
    method DownloadAllAsZip(candidates: seq<Key256>) returns (r: Response<seq<ZipEntry>>)
      requires |candidates| == |manager.repository.rows|
      requires Wired()
      modifies manager.encryption.keys
      ensures manager.repository.rows == [] ==> r == Bare(StatusNotFound) && unchanged(manager.encryption.keys)
      ensures manager.repository.rows != [] ==>
        var (after, entries) := ZipEntries(fetch, old(manager.encryption.keys.keyFile), candidates,
          manager.repository.rows, MetadataList(manager.repository.rows), []);
        manager.encryption.keys.keyFile == after &&
        r == if entries.Some? then Response(StatusOk, Some(ZipHeaders), entries) else Bare(StatusServerError)
      ensures old(manager.encryption.keys.keyFile).Some? && r.status == StatusOk ==>
        r.body.Some? && |r.body.value| == |manager.repository.rows| &&
        manager.encryption.keys.keyFile == old(manager.encryption.keys.keyFile) &&
        HoldsFetched(manager.encryption.aes, old(manager.encryption.keys.keyFile), candidates,
          manager.repository.rows, MetadataList(manager.repository.rows), r.body.value)
    {
      ghost var keyFile0 := manager.encryption.keys.keyFile;
      var metas := manager.GetAllPhotosMetadata();
      assert metas == MetadataList(manager.repository.rows);
      if |metas| == 0 {
        return Bare(StatusNotFound);
      }
      ghost var rows := manager.repository.rows;
      ghost var whole := ZipEntries(fetch, manager.encryption.keys.keyFile, candidates, rows, metas, []);
      var entries: seq<ZipEntry> := [];
      var i := 0;
      while i < |metas|
        invariant 0 <= i <= |metas|
        invariant manager.repository.rows == rows
        invariant |entries| == i && DistinctNames(entries)
        invariant whole == ZipEntries(fetch, manager.encryption.keys.keyFile, candidates[i..], rows, metas[i..], entries)
      {
        assert metas[i..][0] == metas[i] && metas[i..][1..] == metas[i + 1..];
        assert candidates[i..][0] == candidates[i] && candidates[i..][1..] == candidates[i + 1..];
        ghost var keyFile := manager.encryption.keys.keyFile;
        var data := manager.GetPhotoData(metas[i].fileName, candidates[i]);
        assert (manager.encryption.keys.keyFile, data) == fetch(keyFile, candidates[i], rows, metas[i].fileName);
        if data.Err? {
          return Bare(StatusServerError);
        }
        var name := metas[i].originalFileName;
        if name.None? || |name.value| > MaxEntryNameLength || name.value in EntryNames(entries) {
          return Bare(StatusServerError);
        }
        assert DistinctNames(entries + [ZipEntry(name.value, data.value)]) by {
          forall k | 0 <= k < |entries| ensures entries[k].name != name.value {
            assert EntryNames(entries)[k] == entries[k].name;
          }
        }
        entries := entries + [ZipEntry(name.value, data.value)];
        i := i + 1;
      }
      assert metas[i..] == [] && candidates[i..] == [];
      r := Response(StatusOk, Some(ZipHeaders), Some(entries));
      if keyFile0.Some? {
        ZipContents(fetch, manager.encryption.aes, keyFile0, candidates, rows, metas, []);
        assert entries[0..] == entries;
      }
    }

    /** deletePhoto: 200 with a message when the id was stored, 404 otherwise. */
    method DeletePhoto(id: int) returns (r: Response<string>)
      requires manager.repository.Valid()
      modifies manager.repository
      ensures manager.repository.Valid()
      ensures manager.repository.nextId == old(manager.repository.nextId)
      ensures HasId(old(manager.repository.rows), id) ==>
        r == Response(StatusOk, None, Some("Photo deleted successfully")) &&
        manager.repository.rows == WithoutId(old(manager.repository.rows), id)
      ensures !HasId(old(manager.repository.rows), id) ==>
        r == Bare(StatusNotFound) && manager.repository.rows == old(manager.repository.rows)
    {
      var done := manager.DeletePhoto(id);
      if done.Err? {
        return Bare(FailureStatus(done.error));
      }
      r := Response(StatusOk, None, Some("Photo deleted successfully"));
    }
  }
}
