/** Unix paths as Rust's `Path`/`PathBuf` treat them, and the environment and
    filesystem the daemon consults, given as values so that every lookup is a
    function of them. */
module Paths {
  import opened Wrappers
  import opened Text

  /** The variables that `env::var` can read: a name absent from the map is
      unset (or not valid Unicode, which `env::var` also reports as an
      error). */
  type Environment = map<string, string>

  function EnvVar(env: Environment, name: string): Option<string> {
    if name in env then Some(env[name]) else None
  }

  /** What is on disk at a path. A path that is not a key does not exist; an
      `Unreadable` entry exists but cannot be read as UTF-8 text (a directory,
      a permission problem, bytes that are not UTF-8). */
  datatype FileEntry = Unreadable | TextFile(content: string)

  type FileSystem = map<string, FileEntry>

  /** `Path::exists`. */
  predicate Exists(fs: FileSystem, path: string) {
    path in fs
  }

  /** `fs::read_to_string(..).ok()`. */
  function ReadToString(fs: FileSystem, path: string): (r: Option<string>)
    ensures r.Some? ==> Exists(fs, path)
  {
    if path in fs && fs[path].TextFile? then Some(fs[path].content) else None
  }

  /** `Path::is_absolute` on Unix: the path starts at the root. */
  predicate IsAbsolute(p: string) {
    p != [] && p[0] == '/'
  }

  /** `PathBuf::join`: an absolute `p` replaces `base`; otherwise `p` is
      appended, with a "/" in between unless `base` is empty or already ends
      in one. */
  function Join(base: string, p: string): (r: string)
    ensures IsAbsolute(p) ==> r == p
    ensures !IsAbsolute(p) ==> StartsWith(r, base) && |p| <= |r| && r[|r| - |p|..] == p
    ensures !IsAbsolute(p) && base != [] && base[|base| - 1] != '/' ==> r == base + "/" + p
    ensures !IsAbsolute(p) && (base == [] || base[|base| - 1] == '/') ==> r == base + p
    ensures IsAbsolute(base) ==> IsAbsolute(r)
  {
    if IsAbsolute(p) then p
    else if base == [] || base[|base| - 1] == '/' then base + p
    else base + "/" + p
  }

  /** The pieces of `p` between slashes, with empty pieces and "." dropped:
      what `Path::components` reports as normal and parent-directory
      components. */
  function NamedParts(parts: seq<string>): (r: seq<string>)
    ensures forall k :: 0 <= k < |r| ==> r[k] != [] && r[k] != "."
  {
    if parts == [] then []
    else (if parts[0] == [] || parts[0] == "." then [] else [parts[0]]) + NamedParts(parts[1..])
  }

  /** `Path::components`, written as strings: "/" for the root, "." for a
      leading current-directory component, then the named parts. Repeated
      slashes, interior "." and a trailing slash leave no trace. */
  function Components(p: string): seq<string> {
    var parts := Split(p, "/");
    var root := IsAbsolute(p);
    var leadingDot := !root && parts[0] == ".";
    (if root then ["/"] else []) + (if leadingDot then ["."] else []) + NamedParts(parts)
  }

  /** `==` on `Path`: component-wise equality. */
  predicate SamePath(p: string, q: string) {
    Components(p) == Components(q)
  }

  /** `Path::file_name`: the last component when it is a normal one; none for
      the root, a lone ".", or a path ending in "..". */
  function FileName(p: string): (r: Option<string>)
    ensures r.Some? ==> r.value != [] && r.value != "." && r.value != ".."
  {
    var c := Components(p);
    if c == [] then None
    else
      var last := c[|c| - 1];
      if last == "/" || last == "." || last == ".." then None else Some(last)
  }

  /** Paths that compare equal have the same file name. */
  lemma SamePathSameFileName(p: string, q: string)
    requires SamePath(p, q)
    ensures FileName(p) == FileName(q)
  {
  }
}
