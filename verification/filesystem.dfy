/** The filesystem as the discovery code sees it through `java.io.File` and
    `java.nio.file.Files`: a map from absolute path to node, together with
    the platform's name separator and the working directory. Every relative
    path handed to the operating system is resolved against the working
    directory; the operating system follows symbolic links when listing,
    testing for directories and testing for existence, and resolves a
    relative link target against the directory holding the link, while
    `getFixedFile` looks through one link only and keeps its target raw. */
module FileSystem {
  import opened Wrappers

  datatype Node =
    | File
      /** A directory whose listing succeeds, with its entry names in listing order. */
    | Dir(entries: seq<string>)
      /** A directory that exists but cannot be listed (no read permission). */
    | Sealed
      /** A symbolic link, with its target as stored; `readable` is false
          when `readSymbolicLink` fails. */
    | Link(target: string, readable: bool)

  /** The nodes by absolute path, the separator (`/` or `\`) and the working
      directory of the process. */
  datatype Fs = Fs(nodes: map<string, Node>, sep: char, cwd: string)

  /** How many links the operating system follows before giving up (Linux
      MAXSYMLINKS). */
  const MaxLinkHops: nat := 40

  /** `new File(base, name)`: the platform separator between the two parts. */
  function Join(sep: char, base: string, name: string): string {
    base + [sep] + name
  }

  predicate IsDriveLetter(c: char) {
    'a' <= c <= 'z' || 'A' <= c <= 'Z'
  }

  /** `File.isAbsolute()`: on Unix a leading `/`; on Windows a drive letter,
      a colon and a backslash (`C:\`), or a UNC prefix (`\\`). */
  predicate IsAbsolute(sep: char, p: string) {
    if sep == '\\' then
      (|p| >= 3 && IsDriveLetter(p[0]) && p[1] == ':' && p[2] == '\\') || (|p| >= 2 && p[0] == '\\' && p[1] == '\\')
    else |p| > 0 && p[0] == sep
  }

  /** A path resolved against a base directory: an absolute path is kept,
      any other is appended to the base. */
  function Against(sep: char, base: string, p: string): (q: string)
    ensures IsAbsolute(sep, p) ==> q == p
    ensures !IsAbsolute(sep, p) ==> q == Join(sep, base, p) && |q| > |p|
  {
    if IsAbsolute(sep, p) then p else Join(sep, base, p)
  }

  /** `toAbsolutePath()`, and the resolution the operating system applies to
      any path the process hands it: against the working directory. */
  function AbsolutePath(fs: Fs, p: string): (q: string)
    ensures IsAbsolute(fs.sep, p) ==> q == p
    ensures !IsAbsolute(fs.sep, p) ==> q == Join(fs.sep, fs.cwd, p)
  {
    Against(fs.sep, fs.cwd, p)
  }

  /** The directory part of a path: everything before its last separator. */
  function Parent(sep: char, p: string): string
    decreases |p|
  {
    if p == [] then []
    else if p[|p| - 1] == sep then p[..|p| - 1]
    else Parent(sep, p[..|p| - 1])
  }

  /** The node a resolved path finally denotes, following at most `hops`
      links; a relative link target is taken from the link's own directory. */
  function Follow(fs: Fs, p: string, hops: nat): Option<Node>
    decreases hops
  {
    if p !in fs.nodes then None
    else match fs.nodes[p]
      case Link(t, ok) => if !ok || hops == 0 then None else Follow(fs, Against(fs.sep, Parent(fs.sep, p), t), hops - 1)
      case n => Some(n)
  }

  function Stat(fs: Fs, p: string): Option<Node> {
    Follow(fs, AbsolutePath(fs, p), MaxLinkHops)
  }

  /** The node stored at a path itself, links not followed. */
  function NodeAt(fs: Fs, p: string): Option<Node> {
    var a := AbsolutePath(fs, p);
    if a in fs.nodes then Some(fs.nodes[a]) else None
  }

  /** `File.exists()`. */
  predicate Exists(fs: Fs, p: string) {
    Stat(fs, p).Some?
  }

  /** `File.isDirectory()`. */
  predicate IsDirectory(fs: Fs, p: string) {
    Stat(fs, p) == Some(Sealed) || (Stat(fs, p).Some? && Stat(fs, p).value.Dir?)
  }

  /** `File.listFiles()`, as entry names; `None` is Java's `null`. */
  function ListFiles(fs: Fs, p: string): Option<seq<string>> {
    match Stat(fs, p)
    case Some(Dir(es)) => Some(es)
    case _ => None
  }

  /** `Files.isSymbolicLink(path)`: the path itself, not its target, is a link. */
  predicate IsSymbolicLink(fs: Fs, p: string) {
    NodeAt(fs, p).Some? && NodeAt(fs, p).value.Link?
  }

  /** `IOTools.getFixedFile` (and the private copy in the legacy provider):
      a path that is not a link is kept; a link is replaced by its stored
      target, raw: a relative target is not resolved against the link's
      directory, so whatever later uses it resolves it against the working
      directory; the target is not followed further; when the link cannot
      be read the path is kept. */
  function FixedFile(fs: Fs, p: string): (q: string)
    ensures q == p || (IsSymbolicLink(fs, p) && NodeAt(fs, p).value.readable && q == NodeAt(fs, p).value.target)
    ensures !IsSymbolicLink(fs, p) ==> q == p
    ensures IsSymbolicLink(fs, p) && NodeAt(fs, p).value.readable ==> q == NodeAt(fs, p).value.target
  {
    match NodeAt(fs, p)
    case Some(Link(t, ok)) => if ok then t else p
    case _ => p
  }

  /** Following more links never changes an answer already reached. */
  lemma {:induction false} FollowMore(fs: Fs, p: string, h: nat, h': nat)
    requires h <= h' && Follow(fs, p, h).Some?
    ensures Follow(fs, p, h') == Follow(fs, p, h)
    decreases h
  {
    if p in fs.nodes && fs.nodes[p].Link? && fs.nodes[p].readable && h > 0 {
      FollowMore(fs, Against(fs.sep, Parent(fs.sep, p), fs.nodes[p].target), h - 1, h' - 1);
    }
  }

  /** The link fix-up does not change what gets listed when the link's target
      is absolute: a path whose links resolve within the hop limit lists the
      same entries as its fixed path. It only changes which path is handed
      to the listing call. */
  lemma FixedFileListsSame(fs: Fs, p: string)
    requires Follow(fs, AbsolutePath(fs, p), MaxLinkHops - 1).Some?
    requires IsSymbolicLink(fs, p) ==> IsAbsolute(fs.sep, NodeAt(fs, p).value.target)
    ensures ListFiles(fs, FixedFile(fs, p)) == ListFiles(fs, p)
  {
    var a := AbsolutePath(fs, p);
    FollowMore(fs, a, MaxLinkHops - 1, MaxLinkHops);
    if IsSymbolicLink(fs, p) && fs.nodes[a].readable {
      var t := fs.nodes[a].target;
      assert Against(fs.sep, Parent(fs.sep, a), t) == t;
      assert AbsolutePath(fs, t) == t;
      FollowMore(fs, t, MaxLinkHops - 2, MaxLinkHops);
    }
  }

  /** With a relative target the two part ways: the operating system reads
      the target from the link's directory, while the fixed path is read
      from the working directory. */
  lemma FixedFileRelativeTarget(fs: Fs, p: string, t: string)
    requires NodeAt(fs, p) == Some(Link(t, true)) && !IsAbsolute(fs.sep, t)
    ensures Stat(fs, FixedFile(fs, p)) == Follow(fs, Join(fs.sep, fs.cwd, t), MaxLinkHops)
    ensures Stat(fs, p) == Follow(fs, Join(fs.sep, Parent(fs.sep, AbsolutePath(fs, p)), t), MaxLinkHops - 1)
  {
  }

  /** On a merged-/usr system `/bin` is a link to `usr/bin`: the operating
      system lists `/usr/bin` for it, but its fixed path `usr/bin` is looked
      up below the working directory and cannot be listed. */
  lemma MergedUsrBin()
    ensures var fs := Fs(map["/bin" := Link("usr/bin", true), "/usr/bin" := Dir(["vlc"])], '/', "/home/user");
            ListFiles(fs, "/bin") == Some(["vlc"]) && FixedFile(fs, "/bin") == "usr/bin"
            && ListFiles(fs, FixedFile(fs, "/bin")) == None
  {
    var fs := Fs(map["/bin" := Link("usr/bin", true), "/usr/bin" := Dir(["vlc"])], '/', "/home/user");
    assert "/bin"[..3] == "/bi" && "/bi"[..2] == "/b" && "/b"[..1] == "/" && "/"[..0] == "";
    assert Parent('/', "/bin") == "";
    assert Join('/', "", "usr/bin") == "/usr/bin";
    assert AbsolutePath(fs, "usr/bin") == "/home/user/usr/bin";
  }

  /** One level only: a link to a link is replaced by the middle link. */
  lemma FixedFileOneLevel()
    ensures var fs := Fs(map["/a" := Link("/b", true), "/b" := Link("/c", true), "/c" := Dir([])], '/', "/");
            FixedFile(fs, "/a") == "/b" && IsSymbolicLink(fs, FixedFile(fs, "/a"))
  {
  }

  /** Drive and UNC paths are absolute on Windows; other paths are placed
      below the working directory. */
  lemma AbsolutePathExamples(nodes: map<string, Node>)
    ensures AbsolutePath(Fs(nodes, '\\', "D:\\work"), "C:\\V\\lib") == "C:\\V\\lib"
    ensures AbsolutePath(Fs(nodes, '\\', "D:\\work"), "\\\\server\\share") == "\\\\server\\share"
    ensures AbsolutePath(Fs(nodes, '\\', "D:\\work"), "lib") == "D:\\work\\lib"
    ensures AbsolutePath(Fs(nodes, '/', "/home"), "/usr/lib") == "/usr/lib"
    ensures AbsolutePath(Fs(nodes, '/', "/home"), "C:\\V") == "/home/C:\\V"
  {
  }
}
