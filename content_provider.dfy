/** The content providers (`ContentProvider.kt`): what a served path holds. A
    regular file holds the root target and every target its path ends with; a
    directory holds the root target, shown as a listing, and every target one of
    its entries' paths ends with, served from the first such entry. The kind of
    the path and the directory's entries (`Files.list`) are given as values, the
    file contents through a `Disk`. */
module ContentProviders {
  import opened Results
  import opened Text
  import opened Utf8
  import opened Contents
  import Server

  /** What `Files.isRegularFile` and `Files.isDirectory` report for a path. */
  datatype FileKind = RegularFile | Directory | Neither

  /** `FileContentProvider(path)`, and `DirectoryContentProvider` with the
      entries it listed when it was built. */
  datatype Provider = FileProvider(path: string) | DirectoryProvider(files: seq<Entry>)

  /** The exceptions: `IllegalAccessException` of `contentFromPath`, the
      `readAllBytes(null)` of a target no entry ends with, and a failure of
      `FileContent` or of `readAllBytes` on the matched path. */
  datatype ProviderError = NeitherFileNorDirectory | NoMatchingEntry | ContentFailed(cause: ContentError)

  /** `contentFromPath`: a regular file is checked before a directory; any other
      path is refused. */
  function ContentFromPath(path: string, kind: FileKind, listing: seq<Entry>): (r: Result<Provider, ProviderError>)
    ensures r.Err? <==> kind == Neither
    ensures r.Err? ==> r.error == NeitherFileNorDirectory
    ensures r.Ok? && r.value.FileProvider? ==> kind == RegularFile && r.value.path == path
    ensures r.Ok? && r.value.DirectoryProvider? ==> kind == Directory && r.value.files == listing
  {
    match kind
    case RegularFile => Ok(FileProvider(path))
    case Directory => Ok(DirectoryProvider(listing))
    case Neither => Err(NeitherFileNorDirectory)
  }

  /** `files.any { it.toString().endsWith(t) }`, entry by entry. */
  predicate AnyEndsWith(files: seq<Entry>, t: string)
    decreases |files|
  {
    files != [] && (EndsWith(files[0].path, t) || AnyEndsWith(files[1..], t))
  }

  /** `any` holds exactly when some entry's path ends with the target. */
  lemma {:induction false} AnyEndsWithIff(files: seq<Entry>, t: string)
    ensures AnyEndsWith(files, t) <==> exists i :: 0 <= i < |files| && EndsWith(files[i].path, t)
    decreases |files|
  {
    if files != [] {
      AnyEndsWithIff(files[1..], t);
      if AnyEndsWith(files[1..], t) {
        var i :| 0 <= i < |files[1..]| && EndsWith(files[1..][i].path, t);
        assert files[i + 1] == files[1..][i];
      }
      if exists i :: 0 <= i < |files| && EndsWith(files[i].path, t) {
        var i :| 0 <= i < |files| && EndsWith(files[i].path, t);
        if i > 0 { assert files[1..][i - 1] == files[i]; }
      }
    }
  }

  /** `files.firstOrNull { it.toString().endsWith(t) }`: the first entry whose
      path ends with the target, or `None` when there is none. */
  function FirstMatch(files: seq<Entry>, t: string): (r: Option<nat>)
    ensures r.None? <==> !AnyEndsWith(files, t)
    ensures r.Some? ==> r.value < |files| && EndsWith(files[r.value].path, t)
    ensures r.Some? ==> forall j :: 0 <= j < r.value ==> !EndsWith(files[j].path, t)
    decreases |files|
  {
    if files == [] then None
    else if EndsWith(files[0].path, t) then Some(0)
    else
      match FirstMatch(files[1..], t)
      case None => None
      case Some(k) =>
        assert forall j :: 1 <= j <= k ==> files[j] == files[1..][j - 1];
        Some(k + 1)
  }

  /** `contains`: a file provider holds exactly the root and the suffixes of its
      path; a directory provider exactly the root and the suffixes of its
      entries' paths. */
  function Contains(p: Provider, t: string): (r: bool)
    ensures p.FileProvider? ==> (r <==> t == Server.ROOT || (|t| <= |p.path| && p.path[|p.path| - |t|..] == t))
    ensures p.DirectoryProvider? ==>
              (r <==> t == Server.ROOT || exists i :: 0 <= i < |p.files| && EndsWith(p.files[i].path, t))
  {
    match p
    case FileProvider(path) => EndsWith(path, t) || t == Server.ROOT
    case DirectoryProvider(files) =>
      AnyEndsWithIff(files, t);
      AnyEndsWith(files, t) || t == Server.ROOT
  }

  /** `doesntContain`, the interface default: never the root; for a file
      exactly the targets the file's path does not end with, and for a
      directory exactly the targets no entry's path ends with. */
  function DoesntContain(p: Provider, t: string): (r: bool)
    ensures r ==> t != Server.ROOT
    ensures p.FileProvider? ==>
              (r <==> t != Server.ROOT && !(|t| <= |p.path| && p.path[|p.path| - |t|..] == t))
    ensures p.DirectoryProvider? ==>
              (r <==> t != Server.ROOT && forall i :: 0 <= i < |p.files| ==> !EndsWith(p.files[i].path, t))
  {
    !Contains(p, t)
  }

  /** The file at a path can be served: it exists and `readAllBytes` succeeds. */
  predicate Servable(disk: Disk, path: string) {
    disk.isPresent(path) && disk.read(path).Some?
  }

  /** The disk agrees with a listing: `readAllBytes` throws on every entry that
      is a directory. */
  predicate DirectoriesUnreadable(disk: Disk, files: seq<Entry>) {
    forall k :: 0 <= k < |files| && files[k].isDirectory ==> disk.read(files[k].path).None?
  }

  /** `FileContent` with its failure wrapped. */
  function FileResource(disk: Disk, path: string): (r: Result<Content, ProviderError>)
    ensures r == Err(ContentFailed(MissingPath)) <==> !disk.isPresent(path)
    ensures r == Err(ContentFailed(ReadFailed)) <==> disk.isPresent(path) && disk.read(path).None?
    ensures r.Ok? <==> Servable(disk, path)
    ensures r.Ok? ==> r.value.FileContent? && Some(r.value.bytes) == disk.read(path)
    ensures r.Ok? ==> Ok(r.value.contentType) == GetContentType(disk, path)
  {
    match FileContentOf(disk, path)
    case Err(e) => Err(ContentFailed(e))
    case Ok(c) => Ok(c)
  }

  /** `getFileBytes`: the bytes of the first entry that ends with the target;
      without one, `readAllBytes(null)` fails, and so does `readAllBytes` of an
      entry it cannot read. */
  function GetFileBytes(disk: Disk, files: seq<Entry>, resource: string): (r: Result<seq<byte>, ProviderError>)
    ensures r == Err(NoMatchingEntry) <==> !AnyEndsWith(files, resource)
    ensures r.Ok? ==> FirstMatch(files, resource).Some?
                      && disk.read(files[FirstMatch(files, resource).value].path) == Some(r.value)
    ensures r.Err? && AnyEndsWith(files, resource) ==>
              r == Err(ContentFailed(ReadFailed)) && disk.read(files[FirstMatch(files, resource).value].path).None?
  {
    match FirstMatch(files, resource)
    case None => Err(NoMatchingEntry)
    case Some(i) =>
      match disk.read(files[i].path)
      case None => Err(ContentFailed(ReadFailed))
      case Some(bytes) => Ok(bytes)
  }

  /** `getResource`. A file provider serves its own file whatever the target. A
      directory provider serves its listing for the root and otherwise the file
      of the first entry that ends with the target. */
  function GetResource(disk: Disk, p: Provider, t: string): (r: Result<Content, ProviderError>)
    ensures p.FileProvider? ==> r == FileResource(disk, p.path)
    ensures p.DirectoryProvider? && t == Server.ROOT ==> r == Ok(DirectoryListing(p.files))
    ensures p.DirectoryProvider? && t != Server.ROOT && !AnyEndsWith(p.files, t) ==> r == Err(NoMatchingEntry)
    ensures p.DirectoryProvider? && t != Server.ROOT && r.Ok? ==>
              r.value.FileContent? && FirstMatch(p.files, t).Some?
              && Some(r.value.bytes) == disk.read(p.files[FirstMatch(p.files, t).value].path)
  {
    match p
    case FileProvider(path) => FileResource(disk, path)
    case DirectoryProvider(files) =>
      if t == Server.ROOT then Ok(DirectoryListing(files))
      else
        match FirstMatch(files, t)
        case None => Err(NoMatchingEntry)
        case Some(i) => FileResource(disk, files[i].path)
  }

  /** Every provider holds the root target. */
  lemma RootContained(p: Provider)
    ensures Contains(p, Server.ROOT) && !DoesntContain(p, Server.ROOT)
  {
  }

  /** A file provider ignores the target: every target gets the same file. */
  lemma FileIgnoresTarget(disk: Disk, path: string, t: string, u: string)
    ensures GetResource(disk, FileProvider(path), t) == GetResource(disk, FileProvider(path), u)
  {
  }

  /** A target a directory holds, other than the root, has a first matching
      entry, and its resource is that entry's file: it fails only when that
      file is gone (`MissingPath`) or cannot be read, as a directory cannot
      (`ReadFailed`). */
  lemma ContainedHasMatch(disk: Disk, files: seq<Entry>, t: string)
    requires Contains(DirectoryProvider(files), t) && t != Server.ROOT
    ensures FirstMatch(files, t).Some?
    ensures GetResource(disk, DirectoryProvider(files), t) == FileResource(disk, files[FirstMatch(files, t).value].path)
  {
  }

  /** A target a directory does not hold has no resource. */
  lemma NotContainedHasNoResource(disk: Disk, files: seq<Entry>, t: string)
    requires DoesntContain(DirectoryProvider(files), t)
    ensures GetResource(disk, DirectoryProvider(files), t) == Err(NoMatchingEntry)
  {
  }

  /** A directory provider has a resource for the root, and for any other
      target exactly when the target's first matching entry can be served. */
  lemma ResourceIffServable(disk: Disk, files: seq<Entry>, t: string)
    ensures GetResource(disk, DirectoryProvider(files), t).Ok?
            <==> t == Server.ROOT || (FirstMatch(files, t).Some? && Servable(disk, files[FirstMatch(files, t).value].path))
  {
  }

  /** A request for a subdirectory of a directory provider fails: the target's
      first matching entry is a directory, and `readAllBytes` throws on it. */
  lemma SubdirectoryNotServed(disk: Disk, files: seq<Entry>, t: string)
    requires DirectoriesUnreadable(disk, files) && t != Server.ROOT
    requires FirstMatch(files, t).Some? && files[FirstMatch(files, t).value].isDirectory
    ensures GetResource(disk, DirectoryProvider(files), t) == Err(ContentFailed(ReadFailed))
            || GetResource(disk, DirectoryProvider(files), t) == Err(ContentFailed(MissingPath))
  {
  }

  /** Where every entry's file can be served (so no entry is a directory), a
      directory provider has a resource for exactly the targets it holds. */
  lemma ResourceIffContained(disk: Disk, files: seq<Entry>, t: string)
    requires forall k :: 0 <= k < |files| ==> Servable(disk, files[k].path)
    ensures GetResource(disk, DirectoryProvider(files), t).Ok? <==> Contains(DirectoryProvider(files), t)
  {
    if Contains(DirectoryProvider(files), t) && t != Server.ROOT {
      ContainedHasMatch(disk, files, t);
    }
  }

  /** The bytes of a directory's file resource are what `getFileBytes` reads
      for the target. */
  lemma ResourceBytes(disk: Disk, files: seq<Entry>, t: string)
    requires t != Server.ROOT && GetResource(disk, DirectoryProvider(files), t).Ok?
    ensures GetFileBytes(disk, files, t) == Ok(AsByteArray(GetResource(disk, DirectoryProvider(files), t).value))
  {
  }

  /** The empty target is a suffix of every path: every non-empty directory
      serves its first entry for it. */
  lemma EmptyTargetFirstEntry(files: seq<Entry>)
    requires files != []
    ensures Contains(DirectoryProvider(files), "")
    ensures FirstMatch(files, "") == Some(0)
  {
    assert EndsWith(files[0].path, "");
  }

  /** The match is on the text of the path, not on whole names: `b.txt` is held
      by a directory whose only entry is `ab.txt`. */
  lemma SuffixNotName(dir: string)
    ensures Contains(DirectoryProvider([Entry(dir + "/ab.txt", false)]), "b.txt")
  {
    var path := dir + "/ab.txt";
    assert path[|path| - 5..] == "b.txt";
  }
}
