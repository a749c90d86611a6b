/** Unix paths as strings, the pieces of Rust's `Path` API the audit relies on,
    the directory entries `walkdir` yields, and the filesystem as parameters. */
module Paths {
  import opened Wrappers
  import opened Strings

  type Path = string

  predicate IsAbsolute(p: Path) {
    p != [] && p[0] == '/'
  }

  /** `base.join(p)` on Unix: an absolute `p` replaces `base`; otherwise `p`
      is appended, with a `/` in between unless `base` is empty or already
      ends in one. */
  function JoinPath(base: Path, p: Path): (r: Path)
    ensures IsAbsolute(p) ==> r == p
    ensures !IsAbsolute(p) ==> EndsWith(r, p) && |base| <= |r| && r[..|base|] == base
    ensures !IsAbsolute(p) ==> |r| - |base| - |p| in {0, 1}
    ensures !IsAbsolute(p) ==> (|r| == |base| + |p| + 1 <==> base != [] && base[|base| - 1] != '/')
    ensures !IsAbsolute(p) && |r| == |base| + |p| + 1 ==> r[|base|] == '/'
  {
    if IsAbsolute(p) then p
    else if base == [] || base[|base| - 1] == '/' then base + p
    else base + "/" + p
  }

  /** Keeps the name-bearing pieces: drops the empty ones (doubled or
      trailing `/`) and the `.` ones, as `Path::components` does past the start. */
  function NormalComponents(parts: seq<string>): (r: seq<string>)
    ensures forall k :: 0 <= k < |r| ==> r[k] in parts && r[k] != "" && r[k] != "."
  {
    if parts == [] then []
    else
      var rest := NormalComponents(parts[1..]);
      if parts[0] == "" || parts[0] == "." then rest else [parts[0]] + rest
  }

  function Components(p: Path): (r: seq<string>)
    ensures forall k :: 0 <= k < |r| ==> r[k] != "" && r[k] != "." && '/' !in r[k]
  {
    var parts := Split(p, "/");
    var r := NormalComponents(parts);
    assert forall k :: 0 <= k < |r| ==> '/' !in r[k] by {
      forall k | 0 <= k < |r| ensures '/' !in r[k] {
        NoCharOfNoContains(r[k], '/');
      }
    }
    r
  }

  /** `Path::file_name`: the last component, unless there is none or it is `..`. */
  function FileName(p: Path): (r: Option<string>)
    ensures r.Some? ==> r.value != "" && r.value != "." && r.value != ".." && '/' !in r.value
  {
    var cs := Components(p);
    if cs == [] || Last(cs) == ".." then None else Some(Last(cs))
  }

  /** Index of the last `c` in `s`. */
  function LastIndexOf(s: string, c: char): (r: Option<nat>)
    ensures r.Some? ==> r.value < |s| && s[r.value] == c
    ensures r.Some? ==> forall k :: r.value < k < |s| ==> s[k] != c
    ensures r.None? <==> c !in s
  {
    if s == [] then None
    else if s[|s| - 1] == c then Some(|s| - 1)
    else
      var r := LastIndexOf(s[..|s| - 1], c);
      assert s == s[..|s| - 1] + [s[|s| - 1]];
      r
  }

  /** The extension of a file name: the text after its last `.`, unless it
      has no dot or its only dot is its first character. */
  function NameExtension(name: string): Option<string> {
    match LastIndexOf(name, '.')
    case None => None
    case Some(i) => if i == 0 then None else Some(name[i + 1..])
  }

  /** `Path::extension`: the extension of the file name, if there is one. */
  function Extension(p: Path): Option<string> {
    match FileName(p)
    case None => None
    case Some(name) => NameExtension(name)
  }

  /** `p` names a file `stem.ext` with a non-empty stem and a dot-free `ext`. */
  predicate NamedWithExt(p: Path, stem: string, ext: string) {
    stem != "" && '.' !in ext && FileName(p) == Some(stem + "." + ext)
  }

  /** A name with an extension is a non-empty stem, a dot and that extension. */
  lemma NameExtensionSplit(name: string)
    requires NameExtension(name).Some?
    ensures var i := LastIndexOf(name, '.').value;
      name == name[..i] + "." + NameExtension(name).value && name[..i] != ""
      && '.' !in NameExtension(name).value
  {
    var i := LastIndexOf(name, '.').value;
    var ext := name[i + 1..];
    assert forall k :: 0 <= k < |ext| ==> ext[k] == name[i + 1 + k];
    assert '.' !in ext;
    assert name == name[..i] + "." + ext;
  }

  /** A non-empty stem, a dot and a dot-free `ext` have the extension `ext`. */
  lemma NameExtensionJoin(stem: string, ext: string)
    requires stem != "" && '.' !in ext
    ensures NameExtension(stem + "." + ext) == Some(ext)
  {
    var name := stem + "." + ext;
    assert name[|stem|] == '.';
    assert forall k :: |stem| < k < |name| ==> name[k] == ext[k - |stem| - 1];
    var j := LastIndexOf(name, '.');
    assert j.value == |stem|;
    assert name[|stem| + 1..] == ext;
  }

  /** What `extension` means: `Some(ext)` exactly for the paths whose file
      name is some non-empty stem, a dot, and a dot-free `ext`. */
  lemma ExtensionIff(p: Path, ext: string)
    ensures Extension(p) == Some(ext) <==> exists stem :: NamedWithExt(p, stem, ext)
  {
    if Extension(p) == Some(ext) {
      var name := FileName(p).value;
      NameExtensionSplit(name);
      assert NamedWithExt(p, name[..LastIndexOf(name, '.').value], ext);
    }
    if stem :| NamedWithExt(p, stem, ext) {
      NameExtensionJoin(stem, ext);
    }
  }

  datatype FileType = RegularFile | Directory | Symlink

  /** One entry of a `walkdir` traversal; the traversal does not follow
      links, so a link is reported as `Symlink`. */
  datatype DirEntry = DirEntry(path: Path, fileType: FileType)

  /** An item the traversal yields: an entry or an I/O error. */
  datatype WalkEntry = Entry(entry: DirEntry) | WalkError

  /** `is_file_with_ext`: a regular file whose extension is `ext`. */
  function IsFileWithExt(entry: DirEntry, ext: string): (r: bool)
    ensures r <==> entry.fileType == RegularFile && exists stem :: NamedWithExt(entry.path, stem, ext)
  {
    ExtensionIff(entry.path, ext);
    if entry.fileType != RegularFile then false
    else
      match Extension(entry.path)
      case None => false
      case Some(e) => e == ext
  }

  /** The filesystem as the audit sees it: whether a path exists, its
      canonical form (`None` when `canonicalize` fails), the entries of a
      recursive walk from a directory, and the contents of a file (`None`
      when it cannot be read as UTF-8 text). */
  datatype Fs = Fs(
    pathExists: Path -> bool,
    canonicalize: Path -> Option<Path>,
    walk: Path -> seq<WalkEntry>,
    read: Path -> Option<string>)
}
