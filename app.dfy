/**
 * The upload and delete handlers, over an abstract images directory (a map
 * from stored name to bytes) and an abstract `images` table (a sequence of
 * rows in insertion order).
 */
module App {
  import opened Wrappers
  import opened PurePath
  import opened FileUtils
  import opened Config

  /** One row of the `images` table. */
  datatype Record = Record(id: nat, filename: string, originalName: string, size: nat,
                           uploadTime: int, fileType: string)

  /**
   * What `save_image` did: inserted the row; returned silently because no
   * connection could be opened; or raised.
   */
  datatype InsertOutcome = Inserted | NoConnection | Raised

  /**
   * What `delete_image` did: deleted the rows and committed; changed
   * nothing and returned (no connection, or a failure its rollback
   * absorbed); or raised out of its `except`/`finally` (a rollback or
   * cursor close on a dropped connection), before any row was committed.
   */
  datatype DeleteOutcome = RowsDeleted | RowsKept | DeleteRaised

  /** What a handler answers. */
  datatype Response =
    | Page(template: string, status: int, message: string)
    | HttpError(status: int, detail: string)
    | Redirect(url: string, status: int)

  /** The error page a failed validation renders, with the exception's status. */
  function ErrorPage(e: ValidationError): (r: Response)
    ensures r.Page? && r.template == "error.html" && r.message == e.Detail()
    ensures e.UnsupportedExtension? ==> r.status == 400
    ensures e.FileTooLarge? ==> r.status == 413
  {
    Page("error.html", e.Status(), e.Detail())
  }

  /**
   * The answer once the file is written: the upload page, or a 500 when
   * the insert raised. A silently skipped insert still reports success.
   */
  function InsertResponse(db: InsertOutcome, filename: string): (r: Response)
    ensures r.status == 500 <==> db.Raised?
    ensures db.Raised? ==> r.HttpError?
    ensures !db.Raised? ==> r.Page? && r.template == "upload.html" && r.status == 200
  {
    if db.Raised? then HttpError(500, "Database insert failed")
    else Page("upload.html", 200, "File " + filename + " successfully uploaded.")
  }

  /** Row ids grow along the table. */
  ghost predicate IdsIncreasing(records: seq<Record>)
  {
    forall i, j :: 0 <= i < j < |records| ==> records[i].id < records[j].id
  }

  /** `file.content_type or "unknown"`: a missing or empty type becomes "unknown". */
  function FileType(contentType: Option<string>): (t: string)
    ensures t != ""
    ensures contentType.Some? && contentType.value != "" ==> t == contentType.value
    ensures contentType.None? || contentType.value == "" ==> t == "unknown"
  {
    if contentType.Some? && contentType.value != "" then contentType.value else "unknown"
  }

  /**
   * `DELETE FROM images WHERE filename = name`: every row with that name
   * goes, every other row stays, in the same order.
   */
  function RemoveRecords(records: seq<Record>, name: string): (r: seq<Record>)
    ensures forall x :: x in r <==> x in records && x.filename != name
    ensures |r| <= |records|
  {
    if records == [] then []
    else
      var rest := RemoveRecords(records[1..], name);
      assert forall x :: x in records <==> x == records[0] || x in records[1..];
      if records[0].filename == name then rest else [records[0]] + rest
  }

  /** Deleting a second time removes nothing more. */
  lemma {:induction false} RemoveRecordsIdempotent(records: seq<Record>, name: string)
    ensures RemoveRecords(RemoveRecords(records, name), name) == RemoveRecords(records, name)
  {
    if records != [] {
      RemoveRecordsIdempotent(records[1..], name);
      var rest := RemoveRecords(records[1..], name);
      if records[0].filename != name {
        assert ([records[0]] + rest)[1..] == rest;
      }
    }
  }

  /** Deleting a name no row carries leaves the table as it is. */
  lemma {:induction false} RemoveRecordsAbsent(records: seq<Record>, name: string)
    requires forall i :: 0 <= i < |records| ==> records[i].filename != name
    ensures RemoveRecords(records, name) == records
  {
    if records != [] {
      RemoveRecordsAbsent(records[1..], name);
      assert records == [records[0]] + records[1..];
    }
  }

  /** The rows after the first keep their ids increasing. */
  lemma TailIncreasing(records: seq<Record>)
    requires records != [] && IdsIncreasing(records)
    ensures IdsIncreasing(records[1..])
  {
    forall i, j | 0 <= i < j < |records| - 1
      ensures records[1..][i].id < records[1..][j].id
    {
      assert records[1..][i] == records[i + 1] && records[1..][j] == records[j + 1];
    }
  }

  /** The first row's id is below that of every later row. */
  lemma HeadBelowTail(records: seq<Record>, x: Record)
    requires records != [] && IdsIncreasing(records) && x in records[1..]
    ensures records[0].id < x.id
  {
    var k :| 0 <= k < |records[1..]| && records[1..][k] == x;
    assert records[k + 1] == x;
  }

  /** A row whose id is below all of an increasing table's ids can go in front. */
  lemma ConsIncreasing(head: Record, rest: seq<Record>)
    requires IdsIncreasing(rest)
    requires forall x :: x in rest ==> head.id < x.id
    ensures IdsIncreasing([head] + rest)
  {
    var r := [head] + rest;
    forall i, j | 0 <= i < j < |r| ensures r[i].id < r[j].id {
      assert r[j] == rest[j - 1];
      if i > 0 {
        assert r[i] == rest[i - 1];
      }
    }
  }

  /** A row whose id is above all of an increasing table's ids can go at the end. */
  lemma SnocIncreasing(records: seq<Record>, last: Record)
    requires IdsIncreasing(records)
    requires forall i :: 0 <= i < |records| ==> records[i].id < last.id
    ensures IdsIncreasing(records + [last])
  {
  }

  /** Deleting keeps the ids increasing: the rows left keep their order. */
  lemma {:induction false} RemoveRecordsKeepsOrder(records: seq<Record>, name: string)
    requires IdsIncreasing(records)
    ensures IdsIncreasing(RemoveRecords(records, name))
  {
    if records != [] {
      TailIncreasing(records);
      RemoveRecordsKeepsOrder(records[1..], name);
      var rest := RemoveRecords(records[1..], name);
      if records[0].filename != name {
        forall x | x in rest ensures records[0].id < x.id {
          HeadBelowTail(records, x);
        }
        ConsIncreasing(records[0], rest);
      }
    }
  }

  /**
   * Under the default `ALLOWED_EXTENSIONS` (which `DefaultAllowedExtensions`
   * shows to be these four entries) every upload fails validation with a
   * 400: the entries carry no dot, and every non-empty suffix has one.
   */
  lemma DefaultConfigRejectsEveryUpload(filename: string, data: seq<bv8>, pos: nat, maxFileSize: int)
    ensures var allowed := ["jpg", "jpeg", "png", "gif"];
            Validate(filename, data, pos, allowed, maxFileSize) == Failure(UnsupportedExtension(filename, allowed))
  {
    var allowed := ["jpg", "jpeg", "png", "gif"];
    assert forall i :: 0 <= i < |allowed| ==> allowed[i][0] != '.';
    assert "" !in allowed;
    DotlessEntriesNeverMatch(filename, allowed);
  }

  /**
   * So with `ALLOWED_EXTENSIONS` unset, the service accepts no upload at
   * all.
   */
  lemma DefaultSettingRejectsEveryUpload(filename: string, data: seq<bv8>, pos: nat, maxFileSize: int)
    ensures Validate(filename, data, pos, AllowedExtensions(None), maxFileSize)
              == Failure(UnsupportedExtension(filename, AllowedExtensions(None)))
  {
    DefaultAllowedExtensions();
    DefaultConfigRejectsEveryUpload(filename, data, pos, maxFileSize);
  }

  /**
   * The service's invariant over its state: nothing is stored without the
   * directory; every stored file and every row names a generated stored
   * name; row ids increase and stay below the next id.
   */
  ghost predicate ConsistentState(dirExists: bool, files: map<string, seq<bv8>>, records: seq<Record>, nextId: nat)
  {
    && (!dirExists ==> files == map[])
    && (forall k :: k in files ==> IsStoredName(k))
    && (forall i :: 0 <= i < |records| ==> IsStoredName(records[i].filename) && records[i].id < nextId)
    && IdsIncreasing(records)
  }

  /** Writing a file under a stored name, which creates the directory, keeps the invariant. */
  lemma StoreKeepsConsistent(dirExists: bool, files: map<string, seq<bv8>>, records: seq<Record>, nextId: nat,
                             name: string, content: seq<bv8>)
    requires ConsistentState(dirExists, files, records, nextId) && IsStoredName(name)
    ensures ConsistentState(true, files[name := content], records, nextId)
  {
  }

  /** Appending the row for a stored name with the next id, and bumping it, keeps the invariant. */
  lemma AppendKeepsConsistent(dirExists: bool, files: map<string, seq<bv8>>, records: seq<Record>, nextId: nat,
                              row: Record)
    requires ConsistentState(dirExists, files, records, nextId)
    requires IsStoredName(row.filename) && row.id == nextId
    ensures ConsistentState(dirExists, files, records + [row], nextId + 1)
  {
    SnocIncreasing(records, row);
    assert forall i :: 0 <= i < |records| ==> (records + [row])[i] == records[i];
  }

  /** Dropping the rows of one name keeps the invariant. */
  lemma RemoveKeepsConsistent(dirExists: bool, files: map<string, seq<bv8>>, records: seq<Record>, nextId: nat,
                              name: string)
    requires ConsistentState(dirExists, files, records, nextId)
    ensures ConsistentState(dirExists, files, RemoveRecords(records, name), nextId)
  {
    RemoveRecordsKeepsOrder(records, name);
    var r := RemoveRecords(records, name);
    forall i | 0 <= i < |r| ensures IsStoredName(r[i].filename) && r[i].id < nextId {
      assert r[i] in records;
    }
  }

  /**
   * The service: its allowed-extension list, the images directory (whether
   * it exists and what it holds, by stored name) and the `images` table
   * with the id its next row gets.
   */
  class ImageService {
    const allowed: seq<string>
    var dirExists: bool
    var files: map<string, seq<bv8>>
    var records: seq<Record>
    var nextId: nat

    /**
     * Nothing is stored without the directory; every stored file and every
     * row names a generated stored name; row ids increase and stay below
     * the next id.
     */
    ghost predicate Valid()
      reads this
    {
      ConsistentState(dirExists, files, records, nextId)
    }

    /**
     * First start-up with `ALLOWED_EXTENSIONS` parsed from `setting`, the
     * value `os.getenv` returned (`AllowedSetting` of the environment): no
     * directory, no rows yet.
     */
    constructor (ghost setting: string, allowed: seq<string>)
      requires allowed == ParseAllowedExtensions(setting)
      ensures Valid()
      ensures this.allowed == allowed
      ensures !dirExists && files == map[] && records == [] && nextId == 1
    {
      this.allowed := allowed;
      dirExists := false;
      files := map[];
      records := [];
      nextId := 1;
    }

    /**
     * `upload_img`, with the uuid hex, the clock and the outcome of the
     * insert passed in. A rejected upload changes nothing and answers the
     * error page with 400 or 413. An accepted one writes exactly one file,
     * under the generated name with the validated bytes, and then inserts
     * the row, or not, as the database allows.
     */
    method Upload(file: UploadFile, hex: string, now: int, db: InsertOutcome) returns (resp: Response)
      requires Valid() && IsUuidHex(hex)
      modifies this, file.file
      ensures Valid()
      ensures var v := Validate(file.filename, file.file.data, old(file.file.pos), allowed, DefaultMaxFileSize);
        v.Failure? ==>
          && dirExists == old(dirExists) && files == old(files)
          && records == old(records) && nextId == old(nextId)
          && resp == ErrorPage(v.error)
      ensures var v := Validate(file.filename, file.file.data, old(file.file.pos), allowed, DefaultMaxFileSize);
        v.Success? ==>
          && dirExists
          && files == old(files)[GetUniqueName(file.filename, hex) := v.value]
          && resp == InsertResponse(db, file.filename)
      ensures var v := Validate(file.filename, file.file.data, old(file.file.pos), allowed, DefaultMaxFileSize);
        v.Success? && db.Inserted? ==>
          && records == old(records) + [Record(old(nextId), GetUniqueName(file.filename, hex), Name(file.filename),
                                               |v.value|, now, FileType(file.contentType))]
          && nextId == old(nextId) + 1
      ensures var v := Validate(file.filename, file.file.data, old(file.file.pos), allowed, DefaultMaxFileSize);
        v.Success? && !db.Inserted? ==> records == old(records) && nextId == old(nextId)
      ensures var v := Validate(file.filename, file.file.data, old(file.file.pos), allowed, DefaultMaxFileSize);
        && (v.Failure? && v.error.UnsupportedExtension? ==> file.file.pos == old(file.file.pos))
        && (v.Failure? && v.error.FileTooLarge? ==>
              file.file.pos == old(file.file.pos) + |Chunk(file.file.data, old(file.file.pos), DefaultMaxFileSize + 1)|)
        && (v.Success? ==> file.file.pos == 0)
    {
      var v := FileValidation(file, allowed, DefaultMaxFileSize);
      if v.Failure? {
        resp := ErrorPage(v.error);
        return;
      }
      var content := v.value;
      var newFileName := GetUniqueName(file.filename, hex);
      StoreKeepsConsistent(dirExists, files, records, nextId, newFileName, content);
      dirExists := true;
      files := files[newFileName := content];
      var size := |files[newFileName]|;
      var fileType := FileType(file.contentType);
      if db.Inserted? {
        var row := Record(nextId, newFileName, Name(file.filename), size, now, fileType);
        AppendKeepsConsistent(dirExists, files, records, nextId, row);
        records := records + [row];
        nextId := nextId + 1;
      }
      resp := InsertResponse(db, file.filename);
    }

    /**
     * `delete_image_view`, with what `delete_image` did and whether
     * `os.remove` succeeded passed in. When `delete_image` raises, the
     * handler stops there with a 500 and nothing changes. Otherwise the
     * rows with that name go if the delete committed, then the file goes if
     * it exists; a missing file or row is no error, and the answer is the
     * redirect to the list.
     */
    method Delete(filename: string, db: DeleteOutcome, removeSucceeds: bool) returns (resp: Response)
      requires Valid()
      modifies this
      ensures Valid()
      ensures db.DeleteRaised? ==>
                && records == old(records) && files == old(files)
                && resp.HttpError? && resp.status == 500
      ensures !db.DeleteRaised? ==>
                && records == (if db.RowsDeleted? then RemoveRecords(old(records), filename) else old(records))
                && files == (if filename in old(files) && removeSucceeds then old(files) - {filename} else old(files))
                && resp == Redirect("/images-list/", 303)
      ensures dirExists == old(dirExists) && nextId == old(nextId)
    {
      if db.DeleteRaised? {
        return HttpError(500, "Internal Server Error");
      }
      if db.RowsDeleted? {
        RemoveKeepsConsistent(dirExists, files, records, nextId, filename);
        records := RemoveRecords(records, filename);
      }
      if filename in files && removeSucceeds {
        files := files - {filename};
      }
      resp := Redirect("/images-list/", 303);
    }
  }
}
