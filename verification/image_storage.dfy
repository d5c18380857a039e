/** LocalImageStorageService: validates an uploaded image, stores it under a
    random name in the upload directory, and deletes stored files without
    letting a name reach outside that directory. File contents, the random
    UUID and the file system itself are parameters. */
module ImageStorage {
  import opened Base
  import opened Text

  /** The multipart file as the service sees it; a null field is `None`. */
  datatype Upload = Upload(size: nat, contentType: Option<string>, originalName: Option<string>)

  /** InvalidFileException's error codes, plus FileStorageException for an I/O failure. */
  datatype FileError = EmptyFile | FileTooLarge | UnsupportedType | InvalidFilename | InvalidPath | StorageFailure

  const AllowedTypes: seq<string> := ["image/jpeg", "image/jpg", "image/png", "image/gif", "image/webp"]

  /** 10 MiB; a file of exactly this size is accepted. */
  const MaxFileSize: nat := 10 * 1024 * 1024

  /** `validateFile`: `None` when the file is accepted, otherwise the first
      failing check in the order emptiness, size, type, name. */
  function ValidateFile(f: Option<Upload>): (r: Option<FileError>)
    ensures r.None? <==>
      && f.Some? && 0 < f.value.size <= MaxFileSize
      && f.value.contentType.Some? && Lower(f.value.contentType.value) in AllowedTypes
      && f.value.originalName.Some? && !Contains(f.value.originalName.value, "..")
    ensures r == Some(EmptyFile) <==> f.None? || f.value.size == 0
    ensures r == Some(FileTooLarge) <==> f.Some? && f.value.size > MaxFileSize
    ensures r == Some(UnsupportedType) <==>
      && f.Some? && 0 < f.value.size <= MaxFileSize
      && (f.value.contentType.None? || Lower(f.value.contentType.value) !in AllowedTypes)
    ensures r == Some(InvalidFilename) <==>
      && f.Some? && 0 < f.value.size <= MaxFileSize
      && f.value.contentType.Some? && Lower(f.value.contentType.value) in AllowedTypes
      && (f.value.originalName.None? || Contains(f.value.originalName.value, ".."))
    ensures r.Some? ==> r.value in {EmptyFile, FileTooLarge, UnsupportedType, InvalidFilename}
  {
    if f.None? || f.value.size == 0 then Some(EmptyFile)
    else if f.value.size > MaxFileSize then Some(FileTooLarge)
    else if f.value.contentType.None? || Lower(f.value.contentType.value) !in AllowedTypes then Some(UnsupportedType)
    else if f.value.originalName.None? || Contains(f.value.originalName.value, "..") then Some(InvalidFilename)
    else None
  }

  /** The size limit is inclusive, and it is checked before type and name:
      a file one byte over the limit is too large whatever else is wrong with
      it, while one of exactly the limit gets the verdict a one-byte file with
      the same type and name would get. */
  lemma SizeLimitIsInclusive(contentType: Option<string>, originalName: Option<string>)
    ensures ValidateFile(Some(Upload(MaxFileSize + 1, contentType, originalName))) == Some(FileTooLarge)
    ensures ValidateFile(Some(Upload(MaxFileSize, contentType, originalName)))
         == ValidateFile(Some(Upload(1, contentType, originalName)))
  {
  }

  /** `getFileExtension`: from the last dot to the end, when that dot is
      neither the first nor the last character; otherwise empty. */
  function GetFileExtension(name: Option<string>): (ext: string)
    ensures ext != "" ==>
      && name.Some? && |ext| >= 2 && ext[0] == '.' && '.' !in ext[1..]
      && |ext| < |name.value| && name.value[|name.value| - |ext|..] == ext
    ensures name.Some? && ext == "" ==>
      var i := LastIndexOf(name.value, '.'); i <= 0 || i == |name.value| - 1
  {
    if name.None? then ""
    else
      var i := LastIndexOf(name.value, '.');
      if 0 < i < |name.value| - 1 then
        name.value[i..]
      else ""
  }

  /** The extension of "stem.e" is ".e" when the stem is not empty and `e` is
      a non-empty run without dots. */
  lemma ExtensionRoundTrip(stem: string, e: string)
    requires |stem| > 0 && |e| > 0 && '.' !in e
    ensures GetFileExtension(Some(stem + "." + e)) == "." + e
  {
    var s := stem + "." + e;
    var i := LastIndexOf(s, '.');
    assert s[|stem|] == '.';
    assert forall j :: |stem| < j < |s| ==> s[j] == e[j - |stem| - 1];
    assert i == |stem|;
    assert s[i..] == "." + e;
  }

  datatype ImageUploadResponse = ImageUploadResponse(
    imageUrl: string, fileName: string, originalFileName: string, fileSize: nat, contentType: string)

  /** `store`: validation, then the name `uuid + extension`, then the copy
      (`copyFails` is the IOException), then the public URL. */
  function Store(baseUrl: string, f: Option<Upload>, uuid: string, copyFails: bool): (r: Result<ImageUploadResponse, FileError>)
    ensures r.Err? <==> ValidateFile(f).Some? || copyFails
    ensures r.Err? && ValidateFile(f).Some? ==> r.error == ValidateFile(f).value
    ensures r.Err? && ValidateFile(f).None? ==> r.error == StorageFailure
    ensures r.Ok? ==>
      && r.value.imageUrl == baseUrl + "/" + r.value.fileName
      && r.value.fileName == uuid + GetFileExtension(f.value.originalName)
      && Some(r.value.originalFileName) == f.value.originalName
      && r.value.fileSize == f.value.size && 0 < r.value.fileSize <= MaxFileSize
      && Some(r.value.contentType) == f.value.contentType
  {
    var invalid := ValidateFile(f);
    if invalid.Some? then Err(invalid.value)
    else
      var fileName := uuid + GetFileExtension(f.value.originalName);
      if copyFails then Err(StorageFailure)
      else Ok(ImageUploadResponse(baseUrl + "/" + fileName, fileName, f.value.originalName.value,
                                  f.value.size, f.value.contentType.value))
  }

  /** A stored name never holds "..": the random part has no dot and the
      extension holds exactly one, at its start. */
  lemma {:induction false} StoredNameHasNoParentStep(baseUrl: string, f: Option<Upload>, uuid: string, copyFails: bool)
    requires '.' !in uuid
    requires Store(baseUrl, f, uuid, copyFails).Ok?
    ensures !Contains(Store(baseUrl, f, uuid, copyFails).value.fileName, "..")
  {
    var name := Store(baseUrl, f, uuid, copyFails).value.fileName;
    var ext := GetFileExtension(f.value.originalName);
    assert name == uuid + ext;
    forall i: int
      ensures !DotPairAt(name, i)
    {
      if 0 <= i && i + 1 < |name| {
        if i < |uuid| {
          assert name[i] == uuid[i];
        } else {
          assert name[i + 1] == ext[1..][i - |uuid|];
        }
      }
    }
    NoDoubleDotNotContained(name);
  }

  predicate DotPairAt(s: string, i: int) {
    0 <= i && i + 1 < |s| && s[i] == '.' && s[i + 1] == '.'
  }

  /** A text with no two adjacent dots does not contain "..". */
  lemma {:induction false} NoDoubleDotNotContained(s: string)
    requires forall i :: !DotPairAt(s, i)
    ensures !Contains(s, "..")
    decreases |s|
  {
    if |s| > 0 {
      if |s| >= 2 {
        assert !DotPairAt(s, 0);
        assert s[..2][0] == s[0] && s[..2][1] == s[1];
      }
      forall i: int
        ensures !DotPairAt(s[1..], i)
      {
        if 0 <= i && i + 1 < |s[1..]| {
          assert s[1..][i] == s[i + 1] && s[1..][i + 1] == s[i + 2];
        }
        assert !DotPairAt(s, i + 1);
      }
      NoDoubleDotNotContained(s[1..]);
    }
  }

  // ---------------------------------------------------------------- delete

  /** An absolute path as its list of segments. */
  type Path = seq<string>

  /** A file name as `Paths` parses it: absolute or relative, and its segments. */
  datatype FileName = FileName(absolute: bool, segments: seq<string>)

  /** No empty, "." or ".." segment. */
  predicate Clean(p: Path) {
    forall i :: 0 <= i < |p| ==> p[i] != "" && p[i] != "." && p[i] != ".."
  }

  /** `Path.resolve`: an absolute name replaces the base. */
  function Resolve(base: Path, name: FileName): Path {
    if name.absolute then name.segments else base + name.segments
  }

  /** `Path.normalize` for an absolute path, segments already on `stack`:
      "." and empty segments vanish, ".." removes the previous segment and is
      dropped at the root. */
  function NormalizeFrom(stack: Path, rest: seq<string>): (r: Path)
    requires Clean(stack)
    ensures Clean(r)
    ensures |r| <= |stack| + |rest|
    decreases |rest|
  {
    if |rest| == 0 then stack
    else if rest[0] == "" || rest[0] == "." then NormalizeFrom(stack, rest[1..])
    else if rest[0] == ".." then NormalizeFrom(if |stack| > 0 then stack[..|stack| - 1] else stack, rest[1..])
    else NormalizeFrom(stack + [rest[0]], rest[1..])
  }

  function Normalize(p: Path): (r: Path)
    ensures Clean(r)
  {
    NormalizeFrom([], p)
  }

  /** A clean path is already normal: normalising it appends it unchanged. */
  lemma {:induction false} NormalizeFromClean(stack: Path, rest: seq<string>)
    requires Clean(stack) && Clean(rest)
    ensures NormalizeFrom(stack, rest) == stack + rest
    decreases |rest|
  {
    if |rest| > 0 {
      assert rest[0] != "" && rest[0] != "." && rest[0] != "..";
      assert Clean(rest[1..]) by {
        forall i | 0 <= i < |rest[1..]| ensures rest[1..][i] != "" && rest[1..][i] != "." && rest[1..][i] != ".." {
          assert rest[1..][i] == rest[i + 1];
        }
      }
      NormalizeFromClean(stack + [rest[0]], rest[1..]);
      assert stack + [rest[0]] + rest[1..] == stack + rest;
    }
  }

  /** Normalisation is idempotent. */
  lemma NormalizeIdempotent(p: Path)
    ensures Normalize(Normalize(p)) == Normalize(p)
  {
    NormalizeFromClean([], Normalize(p));
  }

  predicate IsPrefix(dir: Path, p: Path) {
    |dir| <= |p| && p[..|dir|] == dir
  }

  /** `delete`: resolve and normalise the name against the upload directory,
      refuse it unless the result lies in that directory, then remove it if
      present (`ioFails` is the IOException). */
  function Delete(uploadDir: Path, files: set<Path>, name: FileName, ioFails: bool): (r: Result<set<Path>, FileError>)
    requires Clean(uploadDir)
    ensures r.Err? ==> r.error in {InvalidPath, StorageFailure}
    ensures r == Err(InvalidPath) <==> !IsPrefix(uploadDir, Normalize(Resolve(uploadDir, name)))
    ensures r.Ok? ==> r.value <= files && forall p :: p in files && p !in r.value ==> IsPrefix(uploadDir, p)
    ensures r.Ok? ==> |files - r.value| <= 1
    ensures r.Ok? <==> IsPrefix(uploadDir, Normalize(Resolve(uploadDir, name))) && !ioFails
    ensures r.Ok? ==> r.value == files - {Normalize(Resolve(uploadDir, name))}
  {
    var target := Normalize(Resolve(uploadDir, name));
    if !IsPrefix(uploadDir, target) then Err(InvalidPath)
    else if ioFails then Err(StorageFailure)
    else
      assert files - (files - {target}) <= {target};
      Ok(files - {target})
  }

  /** A plain stored name deletes exactly that file in the upload directory. */
  lemma DeletePlainName(uploadDir: Path, files: set<Path>, segment: string)
    requires Clean(uploadDir) && Clean([segment])
    ensures Delete(uploadDir, files, FileName(false, [segment]), false) == Ok(files - {uploadDir + [segment]})
  {
    var p := uploadDir + [segment];
    assert Clean(p) by {
      forall i | 0 <= i < |p| ensures p[i] != "" && p[i] != "." && p[i] != ".." {
        if i == |uploadDir| { assert p[i] == [segment][0]; }
      }
    }
    NormalizeFromClean([], p);
    assert [] + p == p;
    assert p[..|uploadDir|] == uploadDir;
  }

  /** Stepping up out of the upload directory into a sibling is refused. */
  lemma DeleteParentEscapeRefused(uploadDir: Path, files: set<Path>, sibling: string, ioFails: bool)
    requires Clean(uploadDir) && |uploadDir| > 0 && Clean([sibling]) && sibling != uploadDir[|uploadDir| - 1]
    ensures Delete(uploadDir, files, FileName(false, ["..", sibling]), ioFails) == Err(InvalidPath)
  {
    var parent := uploadDir[..|uploadDir| - 1];
    assert Clean(parent);
    NormalizeFromClean([], uploadDir);
    assert uploadDir + ["..", sibling] == uploadDir + [".."] + [sibling];
    NormalizeStep(uploadDir, sibling);
    var target := parent + [sibling];
    assert target[|uploadDir| - 1] != uploadDir[|uploadDir| - 1];
  }

  lemma NormalizeStep(dir: Path, sibling: string)
    requires Clean(dir) && |dir| > 0 && Clean([sibling])
    ensures Normalize(dir + ["..", sibling]) == dir[..|dir| - 1] + [sibling]
  {
    NormalizeSplit([], dir, ["..", sibling]);
    NormalizeFromClean([], dir);
    assert [] + dir == dir;
    var parent := dir[..|dir| - 1];
    assert Clean(parent);
    assert ["..", sibling][1..] == [sibling];
    assert NormalizeFrom(dir, ["..", sibling]) == NormalizeFrom(parent, [sibling]);
    assert [sibling][1..] == [];
    assert NormalizeFrom(parent, [sibling]) == NormalizeFrom(parent + [sibling], []);
  }

  /** Normalising a concatenation continues from where the first part ends. */
  lemma {:induction false} NormalizeSplit(stack: Path, a: seq<string>, b: seq<string>)
    requires Clean(stack)
    ensures NormalizeFrom(stack, a + b) == NormalizeFrom(NormalizeFrom(stack, a), b)
    decreases |a|
  {
    if |a| > 0 {
      assert (a + b)[0] == a[0] && (a + b)[1..] == a[1..] + b;
      if a[0] == "" || a[0] == "." {
        NormalizeSplit(stack, a[1..], b);
      } else if a[0] == ".." {
        NormalizeSplit(if |stack| > 0 then stack[..|stack| - 1] else stack, a[1..], b);
      } else {
        NormalizeSplit(stack + [a[0]], a[1..], b);
      }
    } else {
      assert a + b == b;
    }
  }

  /** An absolute name outside the upload directory is refused. */
  lemma DeleteAbsoluteOutsideRefused(uploadDir: Path, files: set<Path>, segments: seq<string>, ioFails: bool)
    requires Clean(uploadDir) && Clean(segments) && !IsPrefix(uploadDir, segments)
    ensures Delete(uploadDir, files, FileName(true, segments), ioFails) == Err(InvalidPath)
  {
    NormalizeFromClean([], segments);
  }
}
