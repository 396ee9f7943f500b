/**
 * Upload intake rules: which file names are accepted, how the stored name
 * is made, and the extension-then-size validation of an uploaded stream.
 */
module FileUtils {
  import opened Wrappers
  import opened Strings
  import opened PurePath

  /**
   * `is_allowed_file`: the lower-cased suffix of the final path component,
   * leading dot included, must be literally one of the allowed entries.
   */
  predicate IsAllowedFile(filename: string, allowed: seq<string>)
    ensures IsAllowedFile(filename, allowed) ==> allowed != []
    ensures Suffix(Name(filename)) == "" ==> (IsAllowedFile(filename, allowed) <==> "" in allowed)
  {
    Lower(Suffix(Name(filename))) in allowed
  }

  /** The letter case of the file name never changes the answer. */
  lemma AllowedIgnoresCase(filename: string, allowed: seq<string>)
    ensures IsAllowedFile(Lower(filename), allowed) == IsAllowedFile(filename, allowed)
  {
    NameLower(filename);
    SuffixLower(Name(filename));
    LowerIdempotent(Suffix(Name(filename)));
  }

  /** So two names that differ only in letter case get the same answer. */
  lemma SameAnswerUpToCase(f: string, g: string, allowed: seq<string>)
    requires Lower(f) == Lower(g)
    ensures IsAllowedFile(f, allowed) == IsAllowedFile(g, allowed)
  {
    AllowedIgnoresCase(f, allowed);
    AllowedIgnoresCase(g, allowed);
  }

  /**
   * Entries written without a leading dot can never match a suffix: the
   * only names such a list accepts are those without a suffix, and only
   * when "" itself is listed.
   */
  lemma DotlessEntriesNeverMatch(filename: string, allowed: seq<string>)
    requires forall i :: 0 <= i < |allowed| ==> allowed[i] == "" || allowed[i][0] != '.'
    ensures IsAllowedFile(filename, allowed) <==> Suffix(Name(filename)) == "" && "" in allowed
  {
    var sfx := Suffix(Name(filename));
    if sfx != "" {
      assert Lower(sfx)[0] == '.';
    }
  }

  /** A name is judged by its last extension only. */
  lemma JudgedByLastSuffix()
    ensures IsAllowedFile("a.tar.gz", [".gz"]) && !IsAllowedFile("a.tar.gz", [".tar"])
  {
    ExampleName("a.tar.gz", 5, ".gz");
    LowerGz();
  }

  lemma LowerGz()
    ensures Lower(".gz") == ".gz"
  {
    var low := Lower(".gz");
    assert low[0] == '.' && low[1] == 'g' && low[2] == 'z';
  }

  /** The extension's case does not matter: the upper-case name is lower-cased. */
  lemma UpperCaseSuffixMatches()
    ensures IsAllowedFile("photo.PNG", [".png"])
  {
    ExampleName("photo.PNG", 5, ".PNG");
    LowerPng();
  }

  lemma LowerPng()
    ensures Lower(".PNG") == ".png"
  {
    var up := Lower(".PNG");
    assert up[0] == '.' && up[1] == 'p' && up[2] == 'n' && up[3] == 'g';
  }

  /** A leading dot starts no suffix: such a name matches only "". */
  lemma LeadingDotGivesNoSuffix()
    ensures !IsAllowedFile(".bashrc", [".bashrc"]) && IsAllowedFile(".bashrc", [""])
  {
    NoSuffixName(".bashrc", 0);
  }

  /** Nor does a trailing dot. */
  lemma TrailingDotGivesNoSuffix()
    ensures !IsAllowedFile("photo.", ["."]) && IsAllowedFile("photo.", [""])
  {
    NoSuffixName("photo.", 5);
  }

  /** Helper for the examples: a slash-free name whose last dot is first or last. */
  lemma NoSuffixName(name: string, k: nat)
    requires '/' !in name && k < |name| && name[k] == '.' && NoDotAfter(name, k)
    requires k == 0 || k == |name| - 1
    requires |name| >= 2
    ensures Name(name) == name && Lower(Suffix(name)) == ""
  {
    SplitWithout(name, '/');
    LastIndexOfUnique(name, '.', k);
  }

  /** Helper for the examples: a slash-free name whose last dot is at index `k`. */
  lemma ExampleName(name: string, k: nat, sfx: string)
    requires '/' !in name && 0 < k < |name| - 1 && name[k] == '.' && NoDotAfter(name, k)
    requires sfx == name[k..]
    ensures Name(name) == name && Suffix(name) == sfx
  {
    SplitWithout(name, '/');
    SuffixCharacterised(name);
  }

  /** What `uuid.uuid4().hex` always is: 32 lower-case hexadecimal digits. */
  predicate IsUuidHex(hex: string)
  {
    |hex| == 32 && forall i :: 0 <= i < |hex| ==> IsHexDigit(hex[i])
  }

  predicate IsHexDigit(c: char)
  {
    '0' <= c <= '9' || 'a' <= c <= 'f'
  }

  /** A name this service generates: a uuid hex, then no path separator. */
  predicate IsStoredName(name: string)
  {
    |name| >= 32 && IsUuidHex(name[..32]) && '/' !in name
  }

  /**
   * `get_unique_name` with the random hex passed in: the hex followed by
   * the lower-cased suffix. Nothing else of the client's name survives, so
   * the result can never hold a '/'.
   */
  function GetUniqueName(filename: string, hex: string): (r: string)
    requires IsUuidHex(hex)
    ensures |r| == 32 + |Suffix(Name(filename))|
    ensures IsStoredName(r)
  {
    hex + Lower(Suffix(Name(filename)))
  }

  /**
   * Two generated names are equal exactly when their hex ids are equal and
   * the two client names have the same lower-cased suffix: distinct ids
   * never collide, and the rest of the client's name plays no part.
   */
  lemma UniqueNameInjective(f: string, h: string, g: string, k: string)
    requires IsUuidHex(h) && IsUuidHex(k)
    ensures GetUniqueName(f, h) == GetUniqueName(g, k) <==>
              h == k && Lower(Suffix(Name(f))) == Lower(Suffix(Name(g)))
  {
    if GetUniqueName(f, h) == GetUniqueName(g, k) {
      assert h == GetUniqueName(f, h)[..32];
      assert k == GetUniqueName(g, k)[..32];
      assert Lower(Suffix(Name(f))) == GetUniqueName(f, h)[32..];
      assert Lower(Suffix(Name(g))) == GetUniqueName(g, k)[32..];
    }
  }

  /** An accepted name keeps an allowed entry as the tail of its stored name. */
  lemma StoredNameEndsAllowed(filename: string, hex: string, allowed: seq<string>)
    requires IsUuidHex(hex) && IsAllowedFile(filename, allowed)
    ensures GetUniqueName(filename, hex)[32..] in allowed
  {
    assert GetUniqueName(filename, hex)[32..] == Lower(Suffix(Name(filename)));
  }

  const MiB: int := 1024 * 1024

  /** Default `max_file_size` of `file_validation`: 5 MiB. */
  const DefaultMaxFileSize: int := 5 * MiB

  /** The two ways `file_validation` rejects an upload. */
  datatype ValidationError =
    | UnsupportedExtension(filename: string, allowed: seq<string>)
    | FileTooLarge(limitMb: int)
  {
    /** HTTP status of the raised exception. */
    function Status(): (status: int)
      ensures status == 400 <==> UnsupportedExtension?
      ensures status == 413 <==> FileTooLarge?
    {
      if UnsupportedExtension? then 400 else 413
    }

    /**
     * The exception's `detail` text: the refused name followed by the
     * allowed entries joined with ", ", or the limit in MB written in
     * decimal.
     */
    function Detail(): (detail: string)
      ensures UnsupportedExtension? ==>
                var prefix := "Invalid file extension for '" + filename + "'. Allowed extensions: ";
                prefix <= detail && detail[|prefix|..] == Join(allowed, ", ")
      ensures FileTooLarge? ==>
                var prefix := "File too large \U{2013} limit is ";
                && |prefix| + 3 < |detail| && prefix <= detail && detail[|detail| - 3..] == " MB"
                && detail[|prefix|..|detail| - 3] == DecimalString(limitMb)
    {
      match this
      case UnsupportedExtension(f, a) =>
        "Invalid file extension for '" + f + "'. Allowed extensions: " + Join(a, ", ")
      case FileTooLarge(mb) =>
        "File too large \U{2013} limit is " + DecimalString(mb) + " MB"
    }
  }

  /** The 413 message reports the limit in whole MiB: 5 for the default. */
  lemma DefaultLimitMessage()
    ensures FileTooLarge(DefaultMaxFileSize / MiB).Detail() == "File too large \U{2013} limit is 5 MB"
  {
    assert DefaultMaxFileSize / MiB == 5;
    FiveWritten();
  }

  lemma FiveWritten()
    ensures DecimalString(5) == "5"
  {
    assert DigitChar(5) == '5';
  }

  /** The bytes of `data` from position `pos` on (none when `pos` is past the end). */
  function Remaining(data: seq<bv8>, pos: nat): seq<bv8>
  {
    if pos <= |data| then data[pos..] else []
  }

  /**
   * What `read(size)` returns at position `pos`: at most `size` bytes of
   * what remains, and everything that remains when `size` is negative.
   */
  function Chunk(data: seq<bv8>, pos: nat, size: int): (r: seq<bv8>)
    ensures r <= Remaining(data, pos)
    ensures size < 0 ==> r == Remaining(data, pos)
    ensures 0 <= size ==> |r| == if size < |Remaining(data, pos)| then size else |Remaining(data, pos)|
  {
    if pos >= |data| then []
    else if size < 0 || pos + size >= |data| then data[pos..]
    else data[pos..pos + size]
  }

  /** The spooled file behind an `UploadFile`: fixed bytes and a read position. */
  class UploadStream {
    const data: seq<bv8>
    var pos: nat

    constructor (content: seq<bv8>)
      ensures data == content && pos == 0
    {
      data := content;
      pos := 0;
    }

    /** `read(size)`: returns the next bytes and moves past them. */
    method Read(size: int) returns (chunk: seq<bv8>)
      modifies this`pos
      ensures chunk == Chunk(data, old(pos), size)
      ensures pos == old(pos) + |chunk|
    {
      chunk := Chunk(data, pos, size);
      pos := pos + |chunk|;
    }

    /** `seek(offset)`. */
    method Seek(offset: nat)
      modifies this`pos
      ensures pos == offset
    {
      pos := offset;
    }
  }

  /** FastAPI's `UploadFile`: the client's file name, content type and stream. */
  class UploadFile {
    const filename: string
    const contentType: Option<string>
    const file: UploadStream

    constructor (filename: string, contentType: Option<string>, file: UploadStream)
      ensures this.filename == filename && this.contentType == contentType && this.file == file
    {
      this.filename := filename;
      this.contentType := contentType;
      this.file := file;
    }
  }

  /**
   * What `file_validation` decides for a stream holding `data` at position
   * `pos`: the extension is checked first; then at most `maxFileSize + 1`
   * bytes are read, and more than `maxFileSize` of them is too large.
   */
  function Validate(filename: string, data: seq<bv8>, pos: nat, allowed: seq<string>,
                    maxFileSize: int): (r: Result<seq<bv8>, ValidationError>)
    ensures !IsAllowedFile(filename, allowed) ==>
              r == Failure(UnsupportedExtension(filename, allowed))
    ensures IsAllowedFile(filename, allowed) ==>
              (r.Success? <==> 0 <= maxFileSize && |Remaining(data, pos)| <= maxFileSize)
    ensures IsAllowedFile(filename, allowed) && r.Failure? ==>
              r.error == FileTooLarge(maxFileSize / MiB)
    ensures r.Success? ==> r.value == Remaining(data, pos) && |r.value| <= maxFileSize
  {
    if !IsAllowedFile(filename, allowed) then
      Failure(UnsupportedExtension(filename, allowed))
    else
      var content := Chunk(data, pos, maxFileSize + 1);
      if |content| > maxFileSize then Failure(FileTooLarge(maxFileSize / MiB))
      else Success(content)
  }

  /** Content of exactly the limit is accepted whole; one byte more is a 413. */
  lemma SizeBoundary(filename: string, data: seq<bv8>, allowed: seq<string>, maxFileSize: int)
    requires IsAllowedFile(filename, allowed) && 0 <= maxFileSize
    ensures |data| == maxFileSize ==> Validate(filename, data, 0, allowed, maxFileSize) == Success(data)
    ensures |data| > maxFileSize ==>
              Validate(filename, data, 0, allowed, maxFileSize) == Failure(FileTooLarge(maxFileSize / MiB))
              && Validate(filename, data, 0, allowed, maxFileSize).error.Status() == 413
  {
  }

  /**
   * `file_validation`: on an extension failure nothing is read; on a size
   * failure the stream is left where the read stopped; on success the
   * whole remaining content is returned and the stream is rewound to 0.
   */
  method FileValidation(file: UploadFile, allowed: seq<string>, maxFileSize: int)
    returns (r: Result<seq<bv8>, ValidationError>)
    modifies file.file
    ensures r == Validate(file.filename, file.file.data, old(file.file.pos), allowed, maxFileSize)
    ensures r.Failure? && r.error.UnsupportedExtension? ==> file.file.pos == old(file.file.pos)
    ensures r.Failure? && r.error.FileTooLarge? ==>
              file.file.pos == old(file.file.pos) + |Chunk(file.file.data, old(file.file.pos), maxFileSize + 1)|
    ensures r.Success? ==> file.file.pos == 0
  {
    if !IsAllowedFile(file.filename, allowed) {
      return Failure(UnsupportedExtension(file.filename, allowed));
    }
    var content := file.file.Read(maxFileSize + 1);
    if |content| > maxFileSize {
      return Failure(FileTooLarge(maxFileSize / MiB));
    }
    file.file.Seek(0);
    return Success(content);
  }
}
