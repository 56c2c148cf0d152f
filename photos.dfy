/** The stored photo record (the PHOTOS table), the metadata view handed to
    clients, and the repository the pipeline uses: rows in id order, ids handed
    out by an identity counter, lookup by stored file name, delete by id. */
module Photos {
  import opened Base

  /** A reading of the clock (`LocalDateTime.now()`). */
  type Timestamp = int

  /** A row of the PHOTOS table. Widths and heights are whole pixel counts,
      kept in the entity as doubles. */
  datatype Photo = Photo(
    id: Option<int>,
    originalFileName: Option<string>,
    fileName: string,
    contentType: Option<string>,
    fileSize: int,
    originalWidth: int,
    originalHeight: int,
    resizedWidth: int,
    resizedHeight: int,
    encryptedData: seq<Byte>,
    uploadedAt: Timestamp,
    processedAt: Option<Timestamp>,
    isProcessed: bool)

  /** PhotoMetadataDTO: every field of the row but the encrypted bytes. */
  datatype PhotoMetadata = PhotoMetadata(
    id: Option<int>,
    originalFileName: Option<string>,
    fileName: string,
    contentType: Option<string>,
    fileSize: int,
    originalWidth: int,
    originalHeight: int,
    resizedWidth: int,
    resizedHeight: int,
    uploadedAt: Timestamp,
    processedAt: Option<Timestamp>,
    isProcessed: bool)

  /** Mappers.convertToDTO: a field-for-field copy. */
  function ToMetadata(p: Photo): (m: PhotoMetadata)
    ensures m.id == p.id && m.originalFileName == p.originalFileName && m.fileName == p.fileName
    ensures m.contentType == p.contentType && m.fileSize == p.fileSize
    ensures m.originalWidth == p.originalWidth && m.originalHeight == p.originalHeight
    ensures m.resizedWidth == p.resizedWidth && m.resizedHeight == p.resizedHeight
    ensures m.uploadedAt == p.uploadedAt && m.processedAt == p.processedAt && m.isProcessed == p.isProcessed
  {
    PhotoMetadata(p.id, p.originalFileName, p.fileName, p.contentType, p.fileSize,
      p.originalWidth, p.originalHeight, p.resizedWidth, p.resizedHeight,
      p.uploadedAt, p.processedAt, p.isProcessed)
  }

  /** The columns declared `nullable = false` that may hold null in the entity. */
  predicate MeetsNotNull(p: Photo) {
    p.originalFileName.Some? && p.contentType.Some?
  }

  const NotNullViolation: Exception := Other("not-null property references a null or transient value")

  /** The rows whose stored file name is `name`, in table order. */
  function WithFileName(rows: seq<Photo>, name: string): (r: seq<Photo>)
    ensures |r| <= |rows|
    ensures forall p :: p in r <==> p in rows && p.fileName == name
    decreases |rows|
  {
    if rows == [] then []
    else if rows[|rows| - 1].fileName == name then WithFileName(rows[..|rows| - 1], name) + [rows[|rows| - 1]]
    else WithFileName(rows[..|rows| - 1], name)
  }

  /** `findByFileName`: no row, the one row, or, when several rows share the
      name, the exception Spring Data raises for a single-result query. */
  function LookupFileName(rows: seq<Photo>, name: string): (r: Result<Option<Photo>>)
    ensures r == Ok(None) <==> forall i :: 0 <= i < |rows| ==> rows[i].fileName != name
    ensures r.Ok? && r.value.Some? ==> r.value.value in rows && r.value.value.fileName == name
    ensures r.Err? <==> |WithFileName(rows, name)| >= 2
    ensures r.Err? ==> r.error.Other?
  {
    var found := WithFileName(rows, name);
    if |found| == 0 then
      assert forall i :: 0 <= i < |rows| ==> rows[i] in rows;
      Ok(None)
    else if |found| == 1 then
      assert found[0] in found;
      Ok(Some(found[0]))
    else
      assert found[0] in found;
      Err(Other("query did not return a unique result: " + IntToString(|found|)))
  }

  /** Two rows holding the same stored name make the lookup fail, as a
      single-result query over several rows does. */
  lemma AmbiguousNameFails(rows: seq<Photo>, i: int, j: int)
    requires 0 <= i < j < |rows| && rows[i].fileName == rows[j].fileName
    ensures LookupFileName(rows, rows[j].fileName).Err?
  {
    TwoHolders(rows, i, j);
  }

  lemma {:induction false} TwoHolders(rows: seq<Photo>, i: int, j: int)
    requires 0 <= i < j < |rows| && rows[i].fileName == rows[j].fileName
    ensures |WithFileName(rows, rows[j].fileName)| >= 2
    decreases |rows|
  {
    var name := rows[j].fileName;
    var init := rows[..|rows| - 1];
    if j == |rows| - 1 {
      assert init[i] == rows[i];
      assert rows[i] in WithFileName(init, name);
    } else {
      assert init[i] == rows[i] && init[j] == rows[j];
      TwoHolders(init, i, j);
    }
  }

  /** A name held by exactly one row is found, and it is that row. */
  lemma {:induction false} FindsUniqueName(rows: seq<Photo>, k: int)
    requires 0 <= k < |rows|
    requires forall i :: 0 <= i < |rows| && i != k ==> rows[i].fileName != rows[k].fileName
    ensures LookupFileName(rows, rows[k].fileName) == Ok(Some(rows[k]))
  {
    UniqueFilter(rows, k);
  }

  lemma {:induction false} UniqueFilter(rows: seq<Photo>, k: int)
    requires 0 <= k < |rows|
    requires forall i :: 0 <= i < |rows| && i != k ==> rows[i].fileName != rows[k].fileName
    ensures WithFileName(rows, rows[k].fileName) == [rows[k]]
    decreases |rows|
  {
    var name := rows[k].fileName;
    var init := rows[..|rows| - 1];
    if k == |rows| - 1 {
      NoneWithName(init, name);
    } else {
      UniqueFilter(init, k);
    }
  }

  lemma {:induction false} NoneWithName(rows: seq<Photo>, name: string)
    requires forall i :: 0 <= i < |rows| ==> rows[i].fileName != name
    ensures WithFileName(rows, name) == []
    decreases |rows|
  {
    if rows != [] {
      NoneWithName(rows[..|rows| - 1], name);
    }
  }

  /** The rows left after deleting `id`, in the same order. */
  function WithoutId(rows: seq<Photo>, id: int): (r: seq<Photo>)
    ensures |r| <= |rows|
    ensures forall p :: p in r <==> p in rows && p.id != Some(id)
    decreases |rows|
  {
    if rows == [] then []
    else if rows[0].id == Some(id) then WithoutId(rows[1..], id)
    else [rows[0]] + WithoutId(rows[1..], id)
  }

  predicate HasId(rows: seq<Photo>, id: int) {
    exists i :: 0 <= i < |rows| && rows[i].id == Some(id)
  }

  /** Ids increase along the table: every row has one, and no two rows share it. */
  ghost predicate IdsIncreasing(rows: seq<Photo>) {
    (forall i :: 0 <= i < |rows| ==> rows[i].id.Some?) &&
    (forall i, j :: 0 <= i < j < |rows| ==> rows[i].id.Some? && rows[j].id.Some? && rows[i].id.value < rows[j].id.value)
  }

  /** Deleting an id that is present removes exactly one row. */
  lemma {:induction false} DeleteRemovesOne(rows: seq<Photo>, id: int)
    requires IdsIncreasing(rows)
    requires HasId(rows, id)
    ensures |WithoutId(rows, id)| == |rows| - 1
    decreases |rows|
  {
    if rows[0].id == Some(id) {
      NotAfter(rows[1..], id);
    } else {
      var i :| 0 <= i < |rows| && rows[i].id == Some(id);
      assert rows[1..][i - 1].id == Some(id);
      DeleteRemovesOne(rows[1..], id);
    }
  }

  lemma {:induction false} NotAfter(rows: seq<Photo>, id: int)
    requires forall i :: 0 <= i < |rows| ==> rows[i].id.Some? && rows[i].id.value > id
    ensures WithoutId(rows, id) == rows
    decreases |rows|
  {
    if rows != [] {
      NotAfter(rows[1..], id);
      assert rows == [rows[0]] + rows[1..];
    }
  }

  /** Deleting keeps the table ordered by id. */
  lemma {:induction false} DeleteKeepsOrder(rows: seq<Photo>, id: int)
    requires IdsIncreasing(rows)
    ensures IdsIncreasing(WithoutId(rows, id))
    decreases |rows|
  {
    if rows != [] {
      var tail := rows[1..];
      assert IdsIncreasing(tail) by {
        forall i, j | 0 <= i < j < |tail| ensures tail[i].id.Some? && tail[j].id.Some? && tail[i].id.value < tail[j].id.value {
          assert tail[i] == rows[i + 1] && tail[j] == rows[j + 1];
        }
      }
      DeleteKeepsOrder(tail, id);
      var rest := WithoutId(tail, id);
      if rows[0].id != Some(id) {
        forall x | x in rest ensures x.id.Some? && rows[0].id.value < x.id.value {
          assert x in tail;
          var k :| 0 <= k < |tail| && tail[k] == x;
          assert tail[k] == rows[k + 1];
        }
        ConsKeepsOrder(rows[0], rest);
      }
    }
  }

  /** A row whose id is below every id of an ordered table keeps it ordered
      when put in front. */
  lemma ConsKeepsOrder(p: Photo, rest: seq<Photo>)
    requires IdsIncreasing(rest) && p.id.Some?
    requires forall x :: x in rest ==> x.id.Some? && p.id.value < x.id.value
    ensures IdsIncreasing([p] + rest)
  {
    var all := [p] + rest;
    forall i, j | 0 <= i < j < |all| ensures all[i].id.Some? && all[j].id.Some? && all[i].id.value < all[j].id.value {
      assert all[j] == rest[j - 1];
      if i > 0 {
        assert all[i] == rest[i - 1];
      } else {
        assert rest[j - 1] in rest;
      }
    }
  }

  /** PhotoRepository: the PHOTOS table and its identity counter. */
  class PhotoRepository {
    var rows: seq<Photo>
    var nextId: int

    ghost predicate Valid()
      reads this
    {
      nextId > 0 && IdsIncreasing(rows) &&
      (forall i :: 0 <= i < |rows| ==> rows[i].id.Some? && 0 < rows[i].id.value < nextId && MeetsNotNull(rows[i]))
    }

    constructor ()
      ensures Valid() && rows == [] && nextId == 1
    {
      rows := [];
      nextId := 1;
    }

    /** `save` of a new entity: the not-null columns are checked, then the row
        gets the next id and is appended. */
    method Save(p: Photo) returns (r: Result<Photo>)
      requires Valid()
      requires p.id.None?
      modifies this
      ensures Valid()
      ensures !MeetsNotNull(p) ==> r == Err(NotNullViolation) && rows == old(rows) && nextId == old(nextId)
      ensures MeetsNotNull(p) ==> r == Ok(p.(id := Some(old(nextId)))) && rows == old(rows) + [r.value] && nextId == old(nextId) + 1
    {
      if !MeetsNotNull(p) {
        return Err(NotNullViolation);
      }
      var saved := p.(id := Some(nextId));
      rows := rows + [saved];
      nextId := nextId + 1;
      r := Ok(saved);
    }

    function FindByFileName(name: string): (r: Result<Option<Photo>>)
      reads this
      ensures r == LookupFileName(rows, name)
    {
      LookupFileName(rows, name)
    }

    /** `findAll`: the rows in id order. */
    function FindAll(): (r: seq<Photo>)
      reads this
      ensures r == rows
    {
      rows
    }

    function ExistsById(id: int): (r: bool)
      reads this
      ensures r <==> HasId(rows, id)
    {
      HasId(rows, id)
    }

    method DeleteById(id: int)
      requires Valid()
      modifies this
      ensures Valid()
      ensures rows == WithoutId(old(rows), id) && nextId == old(nextId)
    {
      DeleteKeepsOrder(rows, id);
      var kept := WithoutId(rows, id);
      forall i | 0 <= i < |kept|
        ensures kept[i].id.Some? && 0 < kept[i].id.value < nextId && MeetsNotNull(kept[i])
      {
        assert kept[i] in rows;
      }
      rows := kept;
    }
  }
}
