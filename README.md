# Photo upload and retrieval pipeline, modelled in Dafny

This project models the core of a small Spring service that stores photos.
On upload, each image is checked. Its content type must be PNG or JPEG and
allowed by the configured list, and neither side may exceed the maximum size.
It is then scaled down to fit the configured bounds, keeping the aspect ratio,
with ImageMagick first and Java's own rasteriser as the fallback. The bytes are
encrypted with AES/CBC/PKCS5Padding under a key kept Base64-encoded in
`secretKey.key`, and the random IV is stored in front of the ciphertext.
Finally the record is saved in the PHOTOS table under a UUID-based file name
that keeps the original extension. Download looks the record up by that name
and decrypts it. The service also lists metadata, packs every photo into a ZIP
archive, and deletes by id. Failures become the HTTP status codes the
controller layer returns.

Modules, bottom-up:

- `Base` (base.dfy): Option/Result/Exception, bytes, and the string helpers the Java code uses (`toLowerCase`, `contains`, `lastIndexOf`, decimal rendering).
- `Base64` (base64.dfy): the RFC 4648 basic alphabet with padding, as `java.util.Base64` encodes and decodes it.
- `AesCbc` (aes_cbc.dfy): CBC chaining (section 6.2 of NIST SP 800-38A) and the padding of section 6.1.1 of RFC 8018 over an abstract block permutation.
- `SecretKeys` (secret_keys.dfy): the key manager, whose state is the key file.
- `Encryption` (encryption.dfy): EncryptionUtil, including IV framing.
- `ImageProcessing` (image_processing.dfy): validation, the resize planner and the resize fallback chain.
- `Photos` (photos.dfy): the entity, the metadata DTO and the repository.
- `PhotoManager` (photo_manager.dfy): PhotoManagerServiceImpl.
- `PhotoService` (photo_service.dfy): the HTTP-facing PhotoServiceImpl.

Each operation that changes state is a method of a class holding that state:
the key file, the table with its identity counter, and the services wired
together. Each method is specified by a pure step function of the old state,
and the properties are proved about those functions. The random key, the
random IV, the UUID and the clock readings are parameters.

## Model

| member | source | states |
|---|---|---|
| Base.LastIndexOf | src/main/java/com/phototransformation/service/PhotoManagerServiceImpl.java:135 | the index of the last occurrence of the character, with no later occurrence, or -1 when there is none |
| Base.Contains | src/main/java/com/phototransformation/util/ImageProcessingUtil.java:56 | true exactly when the needle occurs somewhere in the text |
| Base64.Decode | src/main/java/com/phototransformation/util/SecretKeyGenerator.java:90 | `Base64.getDecoder().decode`: the basic alphabet in units of four with optional padding; every failure is an IllegalArgumentException |
| Base64.DecodeEncode | src/main/java/com/phototransformation/util/SecretKeyGenerator.java:67-92 | decoding the encoder's output gives back every byte string |
| Base64.EncodeHasNoLineBreak | src/main/java/com/phototransformation/util/SecretKeyGenerator.java:69 | the encoder never writes a line break, so `readLine` returns the whole saved text |
| AesCbc.Pad | src/main/java/com/phototransformation/util/EncryptionUtil.java:15 | the padded message fills whole blocks, keeps the message as its prefix, and adds 1 to 16 bytes |
| AesCbc.UnpadPad | src/main/java/com/phototransformation/util/EncryptionUtil.java:15 | removing the padding undoes padding for every message |
| AesCbc.CbcRoundTrip | src/main/java/com/phototransformation/util/EncryptionUtil.java:37-38 | CBC decryption under the same key and IV inverts CBC encryption, block by block |
| AesCbc.Encrypt | src/main/java/com/phototransformation/util/EncryptionUtil.java:38 | the ciphertext is a whole number of blocks and strictly longer than the message by at most one block |
| AesCbc.Decrypt | src/main/java/com/phototransformation/util/EncryptionUtil.java:65 | input that is not a whole number of blocks is refused; a result is never longer than the input |
| AesCbc.DecryptEncrypt | src/main/java/com/phototransformation/util/EncryptionUtil.java:27-65 | decrypting with the same key and IV gives the message back, whatever the message |
| SecretKeys.FirstLine | src/main/java/com/phototransformation/util/SecretKeyGenerator.java:87 | null for an empty file; otherwise the longest prefix without a line terminator, which is followed by a terminator or the end |
| SecretKeys.LoadSecretKey | src/main/java/com/phototransformation/util/SecretKeyGenerator.java:84-92 | an empty file fails (null line); a key that loads is never empty |
| SecretKeys.LoadAfterSave | src/main/java/com/phototransformation/util/SecretKeyGenerator.java:67-92 | loading the file that saving a key wrote gives back that key |
| SecretKeys.KeyStep | src/main/java/com/phototransformation/util/SecretKeyGenerator.java:34-42 | afterwards the key file exists and the key returned is what loading it gives; an existing file is never rewritten; with no file, the generated key is returned |
| SecretKeys.CallsAgree | src/main/java/com/phototransformation/util/SecretKeyGenerator.java:34-42 | every call in a sequence returns what the first returned, and the file left is the one the first call left |
| SecretKeys.SecretKeyGenerator.LoadOrGenerateSecretKey | src/main/java/com/phototransformation/util/SecretKeyGenerator.java:34-42 | the new key file and the key are KeyStep of the old file |
| SecretKeys.SecretKeyGenerator.GenerateAndSaveSecretKey | src/main/java/com/phototransformation/util/SecretKeyGenerator.java:51-59 | the file now holds the saved text of the generated key, which is returned |
| SecretKeys.SecretKeyGenerator.SaveSecretKeyToFile | src/main/java/com/phototransformation/util/SecretKeyGenerator.java:67-76 | the file holds exactly the Base64 text of the key |
| SecretKeys.SecretKeyGenerator.LoadSecretKeyFromFile | src/main/java/com/phototransformation/util/SecretKeyGenerator.java:84-92 | the key is what LoadSecretKey gives for the file |
| Encryption.Frame | src/main/java/com/phototransformation/util/EncryptionUtil.java:41-43 | the payload is the 16-byte IV followed by the ciphertext |
| Encryption.PrependIv | src/main/java/com/phototransformation/util/EncryptionUtil.java:41-43 | the two array copies produce exactly Frame(iv, ciphertext) |
| Encryption.EncryptWithKey | src/main/java/com/phototransformation/util/EncryptionUtil.java:37-45 | succeeds exactly for 16-, 24- or 32-byte keys; the payload starts with the IV, is followed by the CBC ciphertext, and is whole blocks longer than IV plus data |
| Encryption.IvOf | src/main/java/com/phototransformation/util/EncryptionUtil.java:58 | the first sixteen bytes, zero-filled past the end of a short payload |
| Encryption.DecryptWithKey | src/main/java/com/phototransformation/util/EncryptionUtil.java:58-65 | a payload shorter than the IV is an IllegalArgumentException; a bad key length is another error; otherwise it is CBC decryption of the rest under the leading IV |
| Encryption.RoundTripWithKey | src/main/java/com/phototransformation/util/EncryptionUtil.java:27-65 | under a valid key, decrypt(encrypt(data)) == data for every IV |
| Encryption.EncryptStep | src/main/java/com/phototransformation/util/EncryptionUtil.java:27-46 | the key file moves as in loadOrGenerateSecretKey; a key that fails to load is the error; a key that loads gives exactly the encryption under it, so the step succeeds exactly when the loaded key has an AES length |
| Encryption.DecryptStep | src/main/java/com/phototransformation/util/EncryptionUtil.java:54-66 | the key file moves as in loadOrGenerateSecretKey; a key that fails to load is the error; a key that loads gives exactly DecryptWithKey under it, so a payload shorter than the IV is an IllegalArgumentException |
| Encryption.StepRoundTrip | src/main/java/com/phototransformation/util/EncryptionUtil.java:27-66 | after a successful encrypt, decrypting the payload returns the data and leaves the key file unchanged, whatever key a later call would have generated |
| Encryption.FreshKeyEncrypts | src/main/java/com/phototransformation/util/SecretKeyGenerator.java:51-59 | the call that generates a key always encrypts successfully |
| Encryption.EncryptionUtil.Encrypt | src/main/java/com/phototransformation/util/EncryptionUtil.java:27-46 | the new key file and the result are EncryptStep of the old file |
| Encryption.EncryptionUtil.Decrypt | src/main/java/com/phototransformation/util/EncryptionUtil.java:54-66 | the new key file and the result are DecryptStep of the old file |
| ImageProcessing.GetImageDimensions | src/main/java/com/phototransformation/util/ImageProcessingUtil.java:35-43 | the decoded size when the decoder yields an image, otherwise "Unable to read image data" |
| ImageProcessing.IsValidImageFormat | src/main/java/com/phototransformation/util/ImageProcessingUtil.java:50-57 | true exactly when the type is one of image/png, image/jpg, image/jpeg and the lower-cased list contains its extension; a missing list fails only once the type has passed |
| ImageProcessing.IsValidImageSize | src/main/java/com/phototransformation/util/ImageProcessingUtil.java:65-68 | true exactly when the larger side is within the maximum; a missing maximum fails |
| ImageProcessing.GetFileExtension | src/main/java/com/phototransformation/util/ImageProcessingUtil.java:208-219 | "png" exactly for a content type that lower-cases to image/png, "jpg" otherwise |
| ImageProcessing.Round | src/main/java/com/phototransformation/util/ImageProcessingUtil.java:93-94 | the integer nearest the value, halves rounded up |
| ImageProcessing.CalculateNewDimensions | src/main/java/com/phototransformation/util/ImageProcessingUtil.java:76-97 | no plan exactly when the image already fits every configured bound; otherwise the scale factor is below one and both sides are scaled by it and rounded |
| ImageProcessing.PlanWithinBounds | src/main/java/com/phototransformation/util/ImageProcessingUtil.java:76-97 | with non-negative bounds, a planned size never exceeds the original nor any configured bound |
| ImageProcessing.PlanMeetsBindingBound | src/main/java/com/phototransformation/util/ImageProcessingUtil.java:76-97 | the side whose factor is chosen lands exactly on its bound |
| ImageProcessing.PlanKeepsAspectRatio | src/main/java/com/phototransformation/util/ImageProcessingUtil.java:76-97 | the planned sides keep the aspect ratio up to rounding: the cross products differ by at most half the sum of the sides |
| ImageProcessing.ImageIoFormatName | src/main/java/com/phototransformation/util/ImageProcessingUtil.java:158-181 | "jpg" is written as "jpeg", any other format under its own name |
| ImageProcessing.ResizeImageWithJava | src/main/java/com/phototransformation/util/ImageProcessingUtil.java:158-181 | undecodable input fails as getImageDimensions does; a side of zero or less is an IllegalArgumentException; otherwise the result is exactly what drawing and `ImageIO.write` give, bytes or an IOException |
| ImageProcessing.ResizeImage | src/main/java/com/phototransformation/util/ImageProcessingUtil.java:192-201 | ImageMagick's output when it succeeds, otherwise the Java fallback; a failure means both failed |
| ImageProcessing.SampleFormats | src/test/java/com/phototransformation/util/ImageProcessingUtilTest.java:36-39 | png and jpeg are accepted and gif is refused under the sample configuration |
| ImageProcessing.ListIsMatchedBySubstring | src/main/java/com/phototransformation/util/ImageProcessingUtil.java:56 | the list is matched by substring on the extension: "png,jpeg" refuses image/jpeg, and "APNG" admits image/png |
| ImageProcessing.SampleSizes | src/test/java/com/phototransformation/util/ImageProcessingUtilTest.java:43-45 | 4000x3000 passes and 6000x1000 fails a 5000 maximum |
| ImageProcessing.SamplePlans | src/test/java/com/phototransformation/util/ImageProcessingUtilTest.java:49-62 | 4000x2000 is planned to 1920x960, 3000x2000 to 1620x1080, and 800x600 needs no plan |
| ImageProcessing.StripCollapsesToZeroHeight | src/main/java/com/phototransformation/util/ImageProcessingUtil.java:76-201 | a 5000x1 strip is planned to 1920x0, and resizing to it fails with an IllegalArgumentException once ImageMagick has failed |
| Photos.ToMetadata | src/main/java/com/phototransformation/mapper/Mappers.java:15-30 | every field of the DTO equals the corresponding field of the entity |
| Photos.WithFileName | src/main/java/com/phototransformation/repository/PhotoRepository.java:20 | exactly the rows holding the name |
| Photos.LookupFileName | src/main/java/com/phototransformation/repository/PhotoRepository.java:20 | no row exactly when no row holds the name; an error exactly when two or more rows hold it; a row found is in the table and holds the name |
| Photos.AmbiguousNameFails | src/main/java/com/phototransformation/repository/PhotoRepository.java:20 | two rows holding the same stored name make the lookup fail |
| Photos.FindsUniqueName | src/main/java/com/phototransformation/repository/PhotoRepository.java:20 | a name held by exactly one row finds that row |
| Photos.WithoutId | src/main/java/com/phototransformation/repository/PhotoRepository.java:12 | the rows left after deleteById are exactly those with another id |
| Photos.DeleteRemovesOne | src/main/java/com/phototransformation/repository/PhotoRepository.java:12 | deleting a stored id removes exactly one row |
| Photos.DeleteKeepsOrder | src/main/java/com/phototransformation/repository/PhotoRepository.java:12 | deleting keeps the ids strictly increasing along the table |
| Photos.PhotoRepository.constructor | src/main/java/com/phototransformation/repository/PhotoRepository.java:12 | an empty, valid table whose counter starts at 1 |
| Photos.PhotoRepository.Save | src/main/java/com/phototransformation/entity/Photo.java:11-50 | a record with a null not-null column is refused and nothing changes; otherwise it is appended under the next id and the counter advances; the table stays valid |
| Photos.PhotoRepository.FindByFileName | src/main/java/com/phototransformation/repository/PhotoRepository.java:20 | the lookup on the current rows |
| Photos.PhotoRepository.FindAll | src/main/java/com/phototransformation/repository/PhotoRepository.java:12 | the current rows, in id order |
| Photos.PhotoRepository.ExistsById | src/main/java/com/phototransformation/repository/PhotoRepository.java:12 | true exactly when some row holds the id |
| Photos.PhotoRepository.DeleteById | src/main/java/com/phototransformation/repository/PhotoRepository.java:12 | the rows become WithoutId of the old rows; the counter is unchanged and the table stays valid |
| PhotoManager.Extension | src/main/java/com/phototransformation/service/PhotoManagerServiceImpl.java:133-136 | empty for a missing name or one without a dot; otherwise the suffix from the last dot, holding no other dot |
| PhotoManager.GenerateUniqueFileName | src/main/java/com/phototransformation/service/PhotoManagerServiceImpl.java:132-138 | the UUID text followed by the original extension |
| PhotoManager.KeepsExtension | src/main/java/com/phototransformation/service/PhotoManagerServiceImpl.java:132-138 | the generated name has the same extension as the original name |
| PhotoManager.PreparePhoto | src/main/java/com/phototransformation/service/PhotoManagerServiceImpl.java:50-90 | each check rejects with the source's error: the format check (or its configuration error), decoding ("Unable to read image data"), the size check (or its configuration error), and the resize; an upload passing the checks is prepared exactly when no resize is planned or the resize succeeds; the record copies the file's name, type and size; with a plan the resized bytes and planned sides are kept and the record is marked processed; without one the original bytes and sides |
| PhotoManager.StoredSizeWithinBounds | src/main/java/com/phototransformation/service/PhotoManagerServiceImpl.java:72-90 | with non-negative bounds, the stored sides never exceed the original nor any configured bound |
| PhotoManager.UploadStep | src/main/java/com/phototransformation/service/PhotoManagerServiceImpl.java:49-96 | a rejected upload leaves the key file alone; otherwise the key file moves as encryption moves it; an encryption error is the result; after a successful encryption the record is saved exactly when its not-null columns are set (otherwise the not-null error), holding the prepared record with exactly the cipher output under the next id |
| PhotoManager.ValidUploadIsSaved | src/main/java/com/phototransformation/service/PhotoManagerServiceImpl.java:49-96 | an upload that passes the checks, whose planned resize succeeds, that names its original file, and whose key is still to be generated or loads with an AES length, is saved |
| PhotoManager.NonEmptyCount | src/main/java/com/phototransformation/service/PhotoManagerServiceImpl.java:39 | the number of non-empty files, at most the number of files |
| PhotoManager.RunBatch | src/main/java/com/phototransformation/service/PhotoManagerServiceImpl.java:35-46 | the batch saves at most one record per non-empty file, exactly one when nothing fails; a batch of empty files saves nothing and changes nothing |
| PhotoManager.BatchIds | src/main/java/com/phototransformation/service/PhotoManagerServiceImpl.java:35-46 | if each upload gives its record the id it was handed, the batch's records take consecutive ids |
| PhotoManager.RunBatchSkips | src/main/java/com/phototransformation/service/PhotoManagerServiceImpl.java:39 | an empty file is skipped |
| PhotoManager.RunBatchUploads | src/main/java/com/phototransformation/service/PhotoManagerServiceImpl.java:40-41 | a non-empty file is uploaded; its failure ends the batch, and its record heads the rest |
| PhotoManager.UploadIdsConsecutive | src/main/java/com/phototransformation/service/PhotoManagerServiceImpl.java:35-46 | the photos one request saves get consecutive ids starting at the counter's value before the request |
| PhotoManager.PhotoDataStep | src/main/java/com/phototransformation/service/PhotoManagerServiceImpl.java:99-106 | a name no row holds is "Photo not found with name: " + name and leaves the key file alone; an ambiguous name is a lookup error; otherwise the row's data is decrypted |
| PhotoManager.MetadataOf | src/main/java/com/phototransformation/service/PhotoManagerServiceImpl.java:109-115 | an unknown name is "Photo not found with name: " + name; a lookup error is passed on; a row found gives exactly its DTO |
| PhotoManager.UploadThenDownload | src/main/java/com/phototransformation/service/PhotoManagerServiceImpl.java:49-106 | once a photo is saved under a name new to the table, reading that name back returns exactly the bytes that were encrypted and leaves the key file as it was |
| PhotoManager.PhotoManagerService.ProcessAndSavePhoto | src/main/java/com/phototransformation/service/PhotoManagerServiceImpl.java:49-96 | the key file and the result are UploadStep of the old state; a saved record is appended and the counter advances, otherwise the table is unchanged |
| PhotoManager.PhotoManagerService.ProcessAndSavePhotos | src/main/java/com/phototransformation/service/PhotoManagerServiceImpl.java:35-46 | the key file, the records appended to the table and the error are those of RunBatch from the old state; the table stays valid |
| PhotoManager.PhotoManagerService.GetPhotoData | src/main/java/com/phototransformation/service/PhotoManagerServiceImpl.java:99-106 | the key file and the result are PhotoDataStep of the old state |
| PhotoManager.PhotoManagerService.GetPhotoMetadata | src/main/java/com/phototransformation/service/PhotoManagerServiceImpl.java:109-115 | MetadataOf the current rows |
| PhotoManager.PhotoManagerService.GetAllPhotosMetadata | src/main/java/com/phototransformation/service/PhotoManagerServiceImpl.java:118-122 | one DTO per row, in table order |
| PhotoManager.PhotoManagerService.DeletePhoto | src/main/java/com/phototransformation/service/PhotoManagerServiceImpl.java:125-130 | an id no row holds is "Photo not found with ID: " + id and nothing changes; otherwise that row is deleted; the identity counter never moves |
| PhotoService.MakeUploadBody | src/main/java/com/phototransformation/dto/PhotoUploadResponseDTO.java:14-19 | the count is the length of the list, or 0 when there is none |
| PhotoService.MetadataList | src/main/java/com/phototransformation/controller/service/PhotoServiceImpl.java:38-40 | one DTO per saved photo, in order |
| PhotoService.UploadReply | src/main/java/com/phototransformation/controller/service/PhotoServiceImpl.java:37-53 | 200 exactly on success, with "Successfully uploaded N photo(s)" and the DTOs; 400 with the message of an IllegalArgumentException; 500 with "Upload failed: " and the message otherwise |
| PhotoService.FailureStatus | src/main/java/com/phototransformation/controller/service/PhotoServiceImpl.java:71-75 | 404 exactly for an IllegalArgumentException, 500 exactly for anything else |
| PhotoService.FileResponse | src/main/java/com/phototransformation/controller/service/PhotoServiceImpl.java:62-69 | 200 exactly when the stored content type parses, with that type, the original name as attachment and the byte count; otherwise 404 |
| PhotoService.DownloadStep | src/main/java/com/phototransformation/controller/service/PhotoServiceImpl.java:57-76 | a metadata failure decides the status and leaves the key file alone; an unknown name is 404; otherwise the key file moves as getPhotoData moves it, a getPhotoData failure gives 404 for an IllegalArgumentException and 500 otherwise, and decrypted bytes give exactly FileResponse |
| PhotoService.DownloadAfterUpload | src/main/java/com/phototransformation/controller/service/PhotoServiceImpl.java:57-76 | once a photo is saved under a new name, downloading that name returns 200 with exactly the uploaded (possibly resized) bytes |
| PhotoService.EntryNames | src/main/java/com/phototransformation/controller/service/PhotoServiceImpl.java:103 | the names of the entries, in order |
| PhotoService.ZipEntries | src/main/java/com/phototransformation/controller/service/PhotoServiceImpl.java:100-107 | a completed archive extends the entries already written by one entry per photo, named by that photo's original file name, with no two entries sharing a name; it is completed only when every photo has an original name no longer than 0xFFFF characters |
| PhotoService.ZipContents | src/main/java/com/phototransformation/controller/service/PhotoServiceImpl.java:100-107 | once the key file exists, fetching never changes it, and entry k of a completed archive holds exactly the bytes getPhotoData returns for photo k |
| PhotoService.FailedFetchAborts | src/main/java/com/phototransformation/controller/service/PhotoServiceImpl.java:100-107 | a photo whose bytes cannot be fetched makes the archive fail |
| PhotoService.UnnamableEntryAborts | src/main/java/com/phototransformation/controller/service/PhotoServiceImpl.java:103 | a photo without an original file name, or with one longer than 0xFFFF characters, makes the archive fail |
| PhotoService.DuplicateNamesFail | src/main/java/com/phototransformation/controller/service/PhotoServiceImpl.java:100-107 | two photos with the same original file name make the archive fail |
| PhotoService.PhotoServiceImpl.Upload | src/main/java/com/phototransformation/controller/service/PhotoServiceImpl.java:30-54 | a missing or empty file array is 400 "No files provided" and changes nothing; otherwise the reply is UploadReply of what processAndSavePhotos did; a 200 counts every non-empty file |
| PhotoService.PhotoServiceImpl.DownloadFile | src/main/java/com/phototransformation/controller/service/PhotoServiceImpl.java:57-76 | the key file and the response are DownloadStep of the old state |
| PhotoService.PhotoServiceImpl.GetAllPhotosMetadata | src/main/java/com/phototransformation/controller/service/PhotoServiceImpl.java:79-86 | 200 with one DTO per stored photo, in table order |
| PhotoService.PhotoServiceImpl.DownloadAllAsZip | src/main/java/com/phototransformation/controller/service/PhotoServiceImpl.java:89-124 | 404 with no key-file change when nothing is stored; otherwise 200 with the ZipEntries archive and its headers when every photo is fetched and named uniquely, and 500 otherwise; when the key file exists, a 200 leaves it unchanged and holds one entry per photo with exactly the bytes getPhotoData returns for it |
| PhotoService.PhotoServiceImpl.DeletePhoto | src/main/java/com/phototransformation/controller/service/PhotoServiceImpl.java:127-136 | 200 "Photo deleted successfully" and the row is gone when the id was stored; 404 and nothing changes otherwise; the identity counter never moves |

## Left out

- AES itself: the block permutation is an abstract `BlockCipher`, and only that its inverse undoes it is assumed (IsBlockCipher). Key schedules and test vectors are not part of this model.
- Pixel work: `ImageIO.read`, the `convert -resize` call and the Java rasteriser are the functions of an `ImagingBackends` value. Their outputs are not modelled. The temporary files, paths and process handling of the ImageMagick route are not modelled either; any failure there is a `None`.
- The rasteriser's output is abstract. When no writer handles the format, `ImageIO.write` returns false, which the source ignores; the backend then gives the empty buffer as a successful result.
- Randomness, the clock and the UUID are parameters of each call: the key a missing file would receive, the IV, the `UUID.randomUUID()` text, and the upload/processing timestamps.
- Floating point: the scale factors are exact rationals, not doubles, and rounding is exact `Math.round`. The widths and heights the entity keeps as doubles are integers here.
- ImageProcessing.CalculateNewDimensions: the `(int)` narrowing of the `Math.round` result is not modelled. When a plan exists the scale factor is below one, so each planned side is at most its original side, which already fits an `int`; only a negative configured bound could give a side outside that range.
- The ZIP byte format and the archive's Content-Length: an archive is its list of entries (name and bytes). The failures modelled are those a failed fetch, a missing name, an over-long name and a duplicate name cause.
- `MediaType.parseMediaType` is a parameter `parses` of the service. A type that does not parse is an IllegalArgumentException and yields 404.
- Photos.PhotoRepository.Save: models only the insertion of a new entity (id still null), which is the only use the pipeline makes of `save`; merging an entity that already has an id is not modelled.
- Photos.PhotoRepository.FindAll: the order of `findAll` is taken to be id order, which the JPA contract does not promise.
- The repository's other derived queries, which the core never calls, are not modelled.
- File-system errors reading or writing `secretKey.key` (IOException) and the `System.out` logging are not modelled. The key file is the field `keyFile`.
- Java string lengths count UTF-16 units. Here they count characters, which only matters for the 0xFFFF limit on ZIP entry names.
- The controller, security and OpenAPI configuration, and the global exception handler are not part of this model.
- SecretKeys.CallsAgree: holds for calls made one after another. Two requests that both find no key file can each generate and write a key, since the existence check and the write are not atomic; concurrent requests are not modelled.
- PhotoManager.UploadIdsConsecutive: assumes no other request saves a photo during the batch, and an identity counter that hands out ids without gaps; the database's identity allocation is not modelled beyond that.
- PhotoManager.BatchIds: the same assumption as UploadIdsConsecutive, for any upload that gives its record the id it was handed.
- Exception messages other than those the service itself writes are approximations. This covers the NullPointerException of a missing configuration value, the repository's non-unique-result message, and the single "Illegal base64 input" that stands for the JDK decoder's several messages. Only the kind of an exception decides a status code, but a message reaches the body of a 400 or 500 upload reply.
