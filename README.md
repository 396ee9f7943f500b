# Image upload service: intake, naming and bookkeeping

This project models the core of a small FastAPI image-hosting service in
Dafny and proves properties of that model. The parts modelled are:

- the `ALLOWED_EXTENSIONS` setting, a comma-separated environment value
  parsed once at start-up;
- the extension check `is_allowed_file`, which compares the lower-cased
  `pathlib` suffix of the client's file name with the allowed entries;
- the stored-name generator `get_unique_name`: a uuid4 hex followed by the
  lower-cased suffix;
- `file_validation`: the extension is checked first, then at most
  `max_file_size + 1` bytes are read, then the stream is rewound;
- the two state-changing handlers, `upload_img` and `delete_image_view`.
  They act on an images directory, modelled as a map from stored name to
  bytes, and on the `images` table, modelled as a sequence of rows in
  insertion order.

The modules follow the program:

- `Strings` holds the parts of Python's `str` used here: `split`, `join`,
  `strip`, `lower`, `rfind` and `str(int)`.
- `PurePath` holds `pathlib`'s `name` and `suffix`.
- `FileUtils` holds `utils/file_utils.py`, with the `UploadFile` and its
  spooled stream as classes.
- `Config` holds the start-up parse of `ALLOWED_EXTENSIONS`.
- `App` holds the `ImageService` class, whose `Upload` and `Delete` methods
  change the directory and the table.

The default setting is "jpg,jpeg,png,gif", and its entries carry no
leading dot. A non-empty `Path.suffix` always starts with a dot, so the check compares
".png" with "png". Under the default setting every upload is therefore
rejected with a 400 (`DefaultConfigRejectsEveryUpload`). With entries
written without a dot, as the default's are, the only way past the check
is a name with no suffix, and only when the empty entry "" is listed
(`DotlessEntriesNeverMatch`).

## Model

| member | source | states |
|---|---|---|
| Strings.Split | app.py:20 | `str.split(",")` gives at least one segment, no segment holds the separator, and joining the segments with the separator gives the text back |
| Strings.SplitJoin | app.py:20 | joining separator-free segments and splitting the result gives exactly those segments back |
| Strings.Strip | app.py:20 | `str.strip()` returns a contiguous slice of its input with only whitespace cut from either end; the result has no whitespace at either end, is empty exactly when the input is all whitespace, and equals the input when that was already stripped |
| Strings.Join | utils/file_utils.py:55 | `", ".join(allowed)`: no parts give "", one part gives itself, and otherwise the first part, the separator and the join of the rest; `Split` and `SplitJoin` state its round trip |
| Strings.Lower | utils/file_utils.py:16 | `lower()` keeps the length, leaves no upper-case ASCII letter, turns each upper-case letter into its lower-case partner and leaves every other character as it was |
| Strings.LastIndexOf | utils/file_utils.py:16 | the `rfind` behind `suffix`: -1 or an index holding the character, with no occurrence after it |
| Strings.Digits | utils/file_utils.py:63 | the decimal digits of a natural number: at least one, all digits, no leading zero, and their value (`DigitsValue`) is the number |
| Strings.DecimalString | utils/file_utils.py:63 | `str(n)`: a minus sign exactly when `n` is negative, then at least one digit with no leading zero, whose value is the magnitude of `n` |
| PurePath.LastKept | app.py:86 | the last path segment that is neither "" nor "."; -1 exactly when there is none, with only such segments after it |
| PurePath.Name | app.py:113 | `Path.name` is the last kept path segment: it holds no "/" and is never "." |
| PurePath.Suffix | utils/file_utils.py:16 | `Path.suffix` is "" or a tail of the name that starts with its only dot and is neither the whole name nor the dot alone |
| PurePath.SuffixCharacterised | utils/file_utils.py:16 | a name has a suffix if and only if its last dot is neither its first nor its last character, and the suffix is then the tail from that dot |
| PurePath.NameLower | utils/file_utils.py:16 | the name of a lower-cased path is the lower-cased name |
| PurePath.SuffixLower | utils/file_utils.py:16 | the suffix of a lower-cased name is the lower-cased suffix |
| FileUtils.IsAllowedFile | utils/file_utils.py:6-17 | `is_allowed_file`: the lower-cased suffix of the name is one of the entries, so an empty list allows nothing and a name without a suffix is allowed exactly when "" is listed |
| FileUtils.AllowedIgnoresCase | utils/file_utils.py:16-17 | lower-casing the whole file name never changes whether it is allowed |
| FileUtils.SameAnswerUpToCase | utils/file_utils.py:16-17 | two names that differ only in letter case get the same answer |
| FileUtils.DotlessEntriesNeverMatch | utils/file_utils.py:16-17 | when no entry starts with a dot, a name is allowed if and only if it has no suffix and "" is listed |
| FileUtils.JudgedByLastSuffix | utils/file_utils.py:16-17 | "a.tar.gz" is judged by ".gz" alone: allowed by [".gz"], refused by [".tar"] |
| FileUtils.UpperCaseSuffixMatches | utils/file_utils.py:16-17 | "photo.PNG" matches the entry ".png" |
| FileUtils.LeadingDotGivesNoSuffix | utils/file_utils.py:16-17 | ".bashrc" has no suffix: refused by [".bashrc"], allowed by [""] |
| FileUtils.TrailingDotGivesNoSuffix | utils/file_utils.py:16-17 | "photo." has no suffix: refused by ["."], allowed by [""] |
| FileUtils.GetUniqueName | utils/file_utils.py:29-30 | the stored name is 32 hex digits followed by the suffix's length of characters, and holds no "/" |
| FileUtils.UniqueNameInjective | utils/file_utils.py:29-30 | two stored names are equal if and only if their hex ids are equal and the lower-cased suffixes are equal |
| FileUtils.StoredNameEndsAllowed | utils/file_utils.py:29-30 | for an allowed file, what follows the hex in the stored name is an allowed entry |
| FileUtils.ValidationError.Status | utils/file_utils.py:52-64 | the status is 400 exactly for a refused extension and 413 exactly for a file too large |
| FileUtils.ValidationError.Detail | utils/file_utils.py:52-64 | for a refused extension, "Invalid file extension for '<name>'. Allowed extensions: " followed by exactly the entries joined with ", "; for a file too large, "File too large – limit is " followed by exactly `str` of the limit and " MB" |
| FileUtils.DefaultLimitMessage | utils/file_utils.py:62-63 | with the default limit the 413 message reports "5 MB" |
| FileUtils.Chunk | utils/file_utils.py:59 | `read(size)` returns a prefix of what remains: all of it for a negative size, otherwise `min(size, remaining)` bytes |
| FileUtils.UploadStream.Read | utils/file_utils.py:59 | returns that chunk and moves the position past it |
| FileUtils.UploadStream.Seek | utils/file_utils.py:68 | the position becomes the offset |
| FileUtils.Validate | utils/file_utils.py:50-69 | a refused extension fails with 400 whatever the content; an allowed one succeeds if and only if the remaining content is at most the limit, and otherwise fails with 413 carrying the limit in whole MiB; success returns exactly the remaining content |
| FileUtils.SizeBoundary | utils/file_utils.py:59-64 | content of exactly the limit is accepted whole, and one byte more gives 413 |
| FileUtils.FileValidation | utils/file_utils.py:50-69 | the method's result equals `Validate` on the stream's old position; after a 400 nothing was read, after a 413 the stream is left where the read stopped, and after success it is rewound to 0 |
| Config.KeepStripped | app.py:20 | the comprehension keeps at most one entry per segment, every entry stripped, and adds no character that no segment held |
| Config.ParseAllowedExtensions | app.py:20 | at most one entry per comma-separated segment (so at most one more than the setting has characters); every entry is stripped and holds no comma |
| Config.SegmentCount | app.py:20 | splitting gives at most one segment more than the text has characters |
| Config.AllowedSetting | app.py:20 | `os.getenv("ALLOWED_EXTENSIONS", "jpg,jpeg,png,gif")`: the value when the variable is set, even to "", and the default otherwise |
| Config.AllowedExtensions | app.py:20 | the module-level list: the parsed setting, with at most one entry per comma-separated segment, each stripped and free of commas |
| Config.ParseJoin | app.py:20 | parsing comma-joined segments is keeping and stripping them |
| Config.KeepAppend | app.py:20 | keeping and stripping works segment by segment |
| Config.KeepOne | app.py:20 | the emptiness test comes before the strip: "" is dropped, a whitespace-only segment becomes "", and any other segment survives as its strip (" png " becomes "png") |
| Config.KeepClean | app.py:20 | segments that are non-empty and already stripped are kept unchanged |
| Config.DefaultAllowedExtensions | app.py:20 | the default setting parses to exactly ["jpg", "jpeg", "png", "gif"], with no dots |
| Config.EmptySegmentDropped | app.py:20 | an empty segment anywhere (from ",," or a trailing ",") adds no entry |
| Config.BlankSegmentKept | app.py:20 | a whitespace-only segment anywhere adds the entry "" |
| Config.EmptySettingAllowsNothing | app.py:20 | a set but empty `ALLOWED_EXTENSIONS` gives no entries, so every upload is refused |
| App.DefaultConfigRejectsEveryUpload | app.py:20 | under the default list every upload fails with the 400 extension error, whatever its name and content |
| App.DefaultSettingRejectsEveryUpload | app.py:20 | with `ALLOWED_EXTENSIONS` unset, the parsed list refuses every upload with the 400 extension error |
| App.ErrorPage | app.py:92-94 | a validation failure renders "error.html" with the exception's detail text, with status 400 for a refused extension and 413 for a file too large |
| App.InsertResponse | app.py:110-129 | a raised insert answers a 500 error; otherwise, including a silently skipped insert, the answer is the "upload.html" page with status 200 |
| App.FileType | app.py:106 | the stored type is the client's content type when it is present and non-empty, and "unknown" when it is missing or empty |
| App.RemoveRecords | db.py:101 | a row survives the delete if and only if it was there and carries another file name |
| App.RemoveRecordsIdempotent | db.py:101 | deleting the same name a second time changes nothing |
| App.RemoveRecordsAbsent | db.py:101 | deleting a name that no row carries leaves the table unchanged |
| App.RemoveRecordsKeepsOrder | db.py:101 | the rows that remain keep their `SERIAL` ids increasing |
| App.StoreKeepsConsistent | app.py:97-101 | writing a file under a generated name, creating the directory if needed, keeps the service invariant |
| App.AppendKeepsConsistent | db.py:77-83 | inserting a row for a generated name with the next id keeps the service invariant |
| App.RemoveKeepsConsistent | db.py:101 | deleting the rows of one name keeps the service invariant |
| App.ImageService.constructor | app.py:18-20 | first start-up with the list parsed from the `ALLOWED_EXTENSIONS` value: no directory, no files, no rows, next id 1, and the invariant holds |
| App.ImageService.Upload | app.py:84-129 | a rejected upload changes nothing and renders the 400/413 page; an accepted one writes exactly one file, under the generated name with the validated bytes, then appends the row (next id, stored name, `Path.name` of the client name, size, time, type) only when the insert went through, and answers 500 exactly when it raised; the stream is left as `file_validation` leaves it (unread after a 400, past the read after a 413, rewound after success); the invariant is kept |
| App.ImageService.Delete | app.py:62-81 | when `delete_image` raises, the answer is a 500 and nothing changes; otherwise the rows with that name go when the delete committed, the file goes when it exists and removal succeeds, nothing else changes, and the answer is a 303 redirect to the list; the invariant is kept |

## Left out

- Listing, pagination and counting in `db.py` are not part of this model. Neither is the `ORDER BY` of the list view. They are read-only and do not touch the intake rules.
- FastAPI routing, Jinja2 templates, static files, `serve_image`, the favicon and the database test route are left out. A response is modelled as a template name, status and message, or as an error or a redirect.
- Logging and the `print` calls have no effect on state and are left out.
- `uuid.uuid4().hex` is a parameter (any 32 lower-case hex digits), and so is `datetime.now()`.
- The database outcomes are parameters. For `save_image` they are: inserted, skipped because there is no connection, or raised. For `delete_image` they are: committed, changed nothing (no connection, or a failure its rollback absorbed), or raised out of its `except`/`finally` on a dropped connection before any commit.
- The success of `os.remove` is a parameter.
- The handlers are `async`. Concurrency between requests is not modelled; each call is one atomic step.
- Failures of `mkdir`, `write_bytes` and `stat` (which would give a 500) are not modelled. The size stored in a row is the length of the written content.
- A PostgreSQL `SERIAL` can skip values after a failed insert. The model uses a counter that only moves on a successful insert, so it captures only that ids increase.
- Strings.Lower: lower-cases ASCII letters only, because Unicode case mapping is not modelled.
- PurePath.Suffix: follows `pathlib` up to Python 3.13. Python 3.14 also treats a trailing-dot name such as "photo." as having a suffix, and that is not modelled.
- A missing client file name (`filename` of None) is not modelled. It makes `Path(None)` raise before any check.
- The delete handler joins the path parameter onto the images directory. Parameters holding "/" or ".." (which could reach other files) are not modelled: the directory is a flat map.
- The file map and the table can drift apart: a file without a row when the insert fails, a row without a file when removal fails. The model captures this only through the outcome parameters. It states no invariant tying them together, because the code keeps none.
- App.ImageService.constructor: models a first deployment, with no images directory and an empty table. A restart keeps the existing directory (`mkdir(exist_ok=True)`, app.py:99) and table (`CREATE TABLE IF NOT EXISTS`, db.py:47); `Upload` and `Delete` accept any state that satisfies the invariant, so they cover that case too.
- App.ImageService.Delete: a `delete_image` that raises after its commit (in the closing of the cursor or connection) would give a 500 with the rows already gone; the model treats every raise as happening before the commit.
