/** Discovery providers: each names a priority, whether it applies on this
    host, and the directories to search. The supported ones are sorted by
    priority, ties kept in discovery order (`List.sort` is stable). */
module Providers {
  import opened Wrappers
  import opened Text

  /** `DiscoveryProvider.Priority`, in declaration order; enum comparison is
      by ordinal. */
  datatype Priority = Overwrite | Highest | High | Normal | Low | Lowest

  function Ordinal(p: Priority): nat {
    match p
    case Overwrite => 0
    case Highest => 1
    case High => 2
    case Normal => 3
    case Low => 4
    case Lowest => 5
  }

  datatype Os = Windows | Linux | Mac | Other

  /** `File.pathSeparator`. */
  function PathSeparator(os: Os): char {
    if os == Windows then ';' else ':'
  }

  /** `File.separator`. */
  function FileSeparator(os: Os): char {
    if os == Windows then '\\' else '/'
  }

  /** What providers read from the host: the operating system, the process
      environment as the JVM saw it at start-up, the `jna.library.path`
      property as captured once when the provider class was loaded, and the
      `InstallDir` value under `HKLM\SOFTWARE\VideoLAN\VLC` (`None` when the
      registry read throws). */
  datatype Host = Host(os: Os, env: map<string, string>, jnaLibraryPath: Option<string>,
                       registryInstallDir: Option<string>)

  datatype Provider =
    | LinuxDirs
    | MacDirs
    | WinDirs
      /** Directories of `PATH`, everywhere but Windows. */
    | SystemPath
      /** Directories of `jna.library.path`, when it was set. */
    | JnaPath
      /** The registry's install directory, on Windows. */
    | WinRegistry
      /** Directories of `PATH` on every platform (the legacy provider). */
    | SystemLegacy
      /** Any other registered provider. */
    | Custom(name: string, priority: Priority, supportedHere: bool, dirs: seq<string>)

  const LinuxDirectories: seq<string> := [
    "/usr/lib/x86_64-linux-gnu",
    "/usr/lib64",
    "/usr/local/lib64",
    "/usr/lib/i386-linux-gnu",
    "/usr/lib",
    "/usr/lib/vlc",
    "/usr/bin/",
    "/usr/bin/vlc",
    "/usr/local/lib",
    "/usr/local/lib/vlc",
    "/var/lib/flatpak",
    "/var/lib/flatpak/org.videolan.VLC",
    "/var/lib/flatpak/app/org.videolan.VLC",
    "/bin"
  ]

  const MacDirectories: seq<string> := [
    "/Applications/VLC.app/Contents/Frameworks",
    "/Applications/VLC.app/Contents/MacOS/lib"
  ]

  const WinDirectories: seq<string> := ["C:\\Program Files\\VideoLAN\\VLC"]

  /** `supported()`. */
  predicate Supported(h: Host, p: Provider) {
    match p
    case LinuxDirs => h.os == Linux
    case MacDirs => h.os == Mac
    case WinDirs => h.os == Windows
    case SystemPath => h.os != Windows
    case JnaPath => h.jnaLibraryPath.Some?
    case WinRegistry => h.os == Windows
    case SystemLegacy => true
    case Custom(_, _, s, _) => s
  }

  /** `priority()`. */
  function PriorityOf(p: Provider): Priority {
    match p
    case LinuxDirs => High
    case MacDirs => High
    case WinDirs => High
    case SystemPath => Lowest
    case JnaPath => Normal
    case WinRegistry => Highest
    case SystemLegacy => Lowest
    case Custom(_, pr, _, _) => pr
  }

  /** `PATH` split on the path separator; no directories when it is unset. */
  function PathDirectories(h: Host): seq<string> {
    match Lookup(h.env, "PATH")
    case None => []
    case Some(path) => JavaSplit(path, PathSeparator(h.os))
  }

  /** `directories()`. The JNA provider is only asked once it is supported;
      its list comes from the value captured at class load. */
  function Directories(h: Host, p: Provider): seq<string>
    requires p == JnaPath ==> h.jnaLibraryPath.Some?
  {
    match p
    case LinuxDirs => LinuxDirectories
    case MacDirs => MacDirectories
    case WinDirs => WinDirectories
    case SystemPath => PathDirectories(h)
    case JnaPath => JavaSplit(h.jnaLibraryPath.value, PathSeparator(h.os))
    case WinRegistry => if h.registryInstallDir.Some? then [h.registryInstallDir.value] else []
    case SystemLegacy => PathDirectories(h)
    case Custom(_, _, _, ds) => ds
  }

  /** The `PATH` providers give the separator-free pieces of `PATH` minus the
      trailing empty ones, and nothing when `PATH` is unset. */
  lemma PathDirectoriesSpec(h: Host)
    ensures "PATH" !in h.env ==> PathDirectories(h) == []
    ensures "PATH" in h.env ==>
              var pieces := Pieces(h.env["PATH"], PathSeparator(h.os));
              PathDirectories(h) <= pieces
              && (forall i :: |PathDirectories(h)| <= i < |pieces| ==> pieces[i] == "")
              && forall i :: 0 <= i < |PathDirectories(h)| ==> PathSeparator(h.os) !in PathDirectories(h)[i]
  {
    if "PATH" in h.env {
      SplitRecovers(h.env["PATH"], PathSeparator(h.os));
    }
  }

  /** An unset `PATH` and a `PATH` of "" differ: the second gives one empty
      directory name. */
  lemma EmptyPathGivesOneDirectory(h: Host)
    requires Lookup(h.env, "PATH") == Some("")
    ensures PathDirectories(h) == [""]
  {
  }

  // ---------------------------------------------------------------------
  // Sorting by priority

  predicate Sorted(ps: seq<Provider>) {
    forall i, j :: 0 <= i < j < |ps| ==> Ordinal(PriorityOf(ps[i])) <= Ordinal(PriorityOf(ps[j]))
  }

  /** The providers of one priority, in order. */
  function OfPriority(ps: seq<Provider>, k: nat): (r: seq<Provider>)
    decreases |ps|
  {
    if ps == [] then []
    else (if Ordinal(PriorityOf(ps[0])) == k then [ps[0]] else []) + OfPriority(ps[1..], k)
  }

  /** Places `x` after every element of no greater priority. */
  function Insert(x: Provider, s: seq<Provider>): seq<Provider>
    decreases |s|
  {
    if s == [] then [x]
    else if Ordinal(PriorityOf(x)) < Ordinal(PriorityOf(s[0])) then [x] + s
    else [s[0]] + Insert(x, s[1..])
  }

  /** `result.sort(Comparator.comparing(DiscoveryProvider::priority))`, as a
      stable insertion sort. */
  function SortByPriority(ps: seq<Provider>): seq<Provider>
    decreases |ps|
  {
    if ps == [] then [] else Insert(ps[|ps| - 1], SortByPriority(ps[..|ps| - 1]))
  }

  /** `getProviders()` / `getSupportedProviders()`: the supported providers
      among those registered, sorted by priority. */
  function SupportedProviders(h: Host, registered: seq<Provider>): seq<Provider> {
    SortByPriority(KeepSupported(h, registered))
  }

  function KeepSupported(h: Host, ps: seq<Provider>): seq<Provider>
    decreases |ps|
  {
    if ps == [] then []
    else (if Supported(h, ps[0]) then [ps[0]] else []) + KeepSupported(h, ps[1..])
  }

  lemma {:induction false} OfPriorityAppend(a: seq<Provider>, b: seq<Provider>, k: nat)
    ensures OfPriority(a + b, k) == OfPriority(a, k) + OfPriority(b, k)
    decreases |a|
  {
    if a == [] {
      assert a + b == b;
    } else {
      assert (a + b)[0] == a[0];
      assert (a + b)[1..] == a[1..] + b;
      OfPriorityAppend(a[1..], b, k);
    }
  }

  /** A sorted list holds nothing of a priority below its first element's. */
  lemma {:induction false} OfPriorityBelowHead(s: seq<Provider>, k: nat)
    requires Sorted(s) && s != [] && k < Ordinal(PriorityOf(s[0]))
    ensures OfPriority(s, k) == []
    decreases |s|
  {
    if |s| > 1 {
      OfPriorityBelowHead(s[1..], k);
    }
  }

  lemma {:induction false} InsertMultiset(x: Provider, s: seq<Provider>)
    ensures multiset(Insert(x, s)) == multiset(s) + multiset{x}
    decreases |s|
  {
    if s != [] && Ordinal(PriorityOf(x)) >= Ordinal(PriorityOf(s[0])) {
      InsertMultiset(x, s[1..]);
      assert s == [s[0]] + s[1..];
    }
  }

  /** Inserting keeps a lower bound on the priorities. */
  lemma {:induction false} InsertLowerBound(x: Provider, s: seq<Provider>, b: nat)
    requires b <= Ordinal(PriorityOf(x))
    requires forall i :: 0 <= i < |s| ==> b <= Ordinal(PriorityOf(s[i]))
    ensures forall i :: 0 <= i < |Insert(x, s)| ==> b <= Ordinal(PriorityOf(Insert(x, s)[i]))
    decreases |s|
  {
    if s != [] && Ordinal(PriorityOf(x)) >= Ordinal(PriorityOf(s[0])) {
      InsertLowerBound(x, s[1..], b);
      var r := Insert(x, s);
      forall i | 0 < i < |r| ensures b <= Ordinal(PriorityOf(r[i])) {
        assert r[i] == Insert(x, s[1..])[i - 1];
      }
    }
  }

  lemma {:induction false} InsertSorted(x: Provider, s: seq<Provider>)
    requires Sorted(s)
    ensures Sorted(Insert(x, s))
    decreases |s|
  {
    if s != [] && Ordinal(PriorityOf(x)) >= Ordinal(PriorityOf(s[0])) {
      var rest := s[1..];
      var b := Ordinal(PriorityOf(s[0]));
      InsertSorted(x, rest);
      forall i | 0 <= i < |rest| ensures b <= Ordinal(PriorityOf(rest[i])) {
        assert rest[i] == s[i + 1];
      }
      InsertLowerBound(x, rest, b);
      var t := Insert(x, rest);
      var r := [s[0]] + t;
      forall i, j | 0 <= i < j < |r|
        ensures Ordinal(PriorityOf(r[i])) <= Ordinal(PriorityOf(r[j]))
      {
        assert r[j] == t[j - 1];
        if i > 0 {
          assert r[i] == t[i - 1];
        }
      }
    }
  }

  lemma {:induction false} InsertOfPriority(x: Provider, s: seq<Provider>, k: nat)
    requires Sorted(s)
    ensures OfPriority(Insert(x, s), k) == OfPriority(s, k) + (if Ordinal(PriorityOf(x)) == k then [x] else [])
    decreases |s|
  {
    if s == [] {
    } else if Ordinal(PriorityOf(x)) < Ordinal(PriorityOf(s[0])) {
      assert ([x] + s)[1..] == s;
      if Ordinal(PriorityOf(x)) == k {
        OfPriorityBelowHead(s, k);
      }
    } else {
      InsertOfPriority(x, s[1..], k);
      assert ([s[0]] + Insert(x, s[1..]))[1..] == Insert(x, s[1..]);
    }
  }

  /** Sorting gives a sorted permutation in which each priority's providers
      keep their original order. */
  lemma {:induction false} SortSpec(ps: seq<Provider>)
    ensures Sorted(SortByPriority(ps))
    ensures multiset(SortByPriority(ps)) == multiset(ps)
    ensures forall k :: OfPriority(SortByPriority(ps), k) == OfPriority(ps, k)
    decreases |ps|
  {
    if ps != [] {
      var init := ps[..|ps| - 1];
      var x := ps[|ps| - 1];
      SortSpec(init);
      InsertSorted(x, SortByPriority(init));
      InsertMultiset(x, SortByPriority(init));
      assert ps == init + [x];
      forall k
        ensures OfPriority(SortByPriority(ps), k) == OfPriority(ps, k)
      {
        InsertOfPriority(x, SortByPriority(init), k);
        OfPriorityAppend(init, [x], k);
      }
    }
  }

  /** `getProviders()` returns the supported providers, each once per
      registration, ordered by priority, ties in registration order. */
  lemma SupportedProvidersSpec(h: Host, registered: seq<Provider>)
    ensures Sorted(SupportedProviders(h, registered))
    ensures forall i :: 0 <= i < |SupportedProviders(h, registered)| ==> Supported(h, SupportedProviders(h, registered)[i])
    ensures multiset(SupportedProviders(h, registered)) == multiset(KeepSupported(h, registered))
    ensures forall k :: OfPriority(SupportedProviders(h, registered), k) == OfPriority(KeepSupported(h, registered), k)
  {
    SortSpec(KeepSupported(h, registered));
    var r := SupportedProviders(h, registered);
    forall i | 0 <= i < |r|
      ensures Supported(h, r[i])
    {
      assert r[i] in multiset(KeepSupported(h, registered));
      KeepSupportedMember(h, registered, r[i]);
    }
  }

  /** A supported provider is never dropped, and an unsupported one never
      appears. */
  lemma {:induction false} KeepSupportedMember(h: Host, ps: seq<Provider>, p: Provider)
    ensures p in KeepSupported(h, ps) <==> p in ps && Supported(h, p)
    decreases |ps|
  {
    if ps != [] {
      KeepSupportedMember(h, ps[1..], p);
      assert ps == [ps[0]] + ps[1..];
    }
  }

  lemma LinuxKept(h: Host)
    requires h.os == Linux && h.jnaLibraryPath.Some?
    ensures KeepSupported(h, [SystemPath, WinDirs, JnaPath, MacDirs, LinuxDirs]) == [SystemPath, JnaPath, LinuxDirs]
  {
    var all := [SystemPath, WinDirs, JnaPath, MacDirs, LinuxDirs];
    assert all[1..] == [WinDirs, JnaPath, MacDirs, LinuxDirs];
    assert all[1..][1..] == [JnaPath, MacDirs, LinuxDirs];
    assert all[1..][1..][1..] == [MacDirs, LinuxDirs];
    assert all[1..][1..][1..][1..] == [LinuxDirs];
    assert KeepSupported(h, [LinuxDirs]) == [LinuxDirs];
    assert KeepSupported(h, [MacDirs, LinuxDirs]) == [LinuxDirs];
    assert KeepSupported(h, [JnaPath, MacDirs, LinuxDirs]) == [JnaPath, LinuxDirs];
    assert KeepSupported(h, [WinDirs, JnaPath, MacDirs, LinuxDirs]) == [JnaPath, LinuxDirs];
  }

  lemma LinuxSorted()
    ensures SortByPriority([SystemPath, JnaPath, LinuxDirs]) == [LinuxDirs, JnaPath, SystemPath]
  {
    var kept := [SystemPath, JnaPath, LinuxDirs];
    assert kept[..2] == [SystemPath, JnaPath] && kept[..2][..1] == [SystemPath] && kept[..2][..1][..0] == [];
    assert SortByPriority([SystemPath]) == [SystemPath];
    assert SortByPriority([SystemPath, JnaPath]) == [JnaPath, SystemPath];
    assert Insert(LinuxDirs, [JnaPath, SystemPath]) == [LinuxDirs, JnaPath, SystemPath];
  }

  /** On Linux, whatever order the providers were registered in, the
      distribution's directories come first, then `jna.library.path`, then
      `PATH`; the Windows and macOS providers are dropped. */
  lemma LinuxProviderOrder(h: Host)
    requires h.os == Linux && h.jnaLibraryPath.Some?
    ensures SupportedProviders(h, [SystemPath, WinDirs, JnaPath, MacDirs, LinuxDirs]) == [LinuxDirs, JnaPath, SystemPath]
  {
    LinuxKept(h);
    LinuxSorted();
  }

  /** An OVERWRITE provider is asked before every provider of another
      priority, and a LOWEST one after every provider of another priority. */
  lemma PriorityExtremes(h: Host, registered: seq<Provider>, i: nat, j: nat)
    requires i < j < |SupportedProviders(h, registered)|
    ensures PriorityOf(SupportedProviders(h, registered)[j]) == Overwrite ==> PriorityOf(SupportedProviders(h, registered)[i]) == Overwrite
    ensures PriorityOf(SupportedProviders(h, registered)[i]) == Lowest ==> PriorityOf(SupportedProviders(h, registered)[j]) == Lowest
  {
    SupportedProvidersSpec(h, registered);
  }

  lemma WindowsKeptCurrent(h: Host)
    requires h.os == Windows && h.jnaLibraryPath.Some?
    ensures KeepSupported(h, [SystemPath, WinDirs, JnaPath, MacDirs, LinuxDirs]) == [WinDirs, JnaPath]
  {
    var all := [SystemPath, WinDirs, JnaPath, MacDirs, LinuxDirs];
    assert all[1..] == [WinDirs, JnaPath, MacDirs, LinuxDirs];
    assert all[1..][1..] == [JnaPath, MacDirs, LinuxDirs];
    assert all[1..][1..][1..] == [MacDirs, LinuxDirs];
    assert all[1..][1..][1..][1..] == [LinuxDirs];
    assert KeepSupported(h, [LinuxDirs]) == [];
    assert KeepSupported(h, [MacDirs, LinuxDirs]) == [];
    assert KeepSupported(h, [JnaPath, MacDirs, LinuxDirs]) == [JnaPath];
  }

  lemma WindowsKeptIntermediate(h: Host)
    requires h.os == Windows && h.jnaLibraryPath.Some?
    ensures KeepSupported(h, [SystemLegacy, JnaPath, WinDirs, WinRegistry]) == [SystemLegacy, JnaPath, WinDirs, WinRegistry]
  {
    var all := [SystemLegacy, JnaPath, WinDirs, WinRegistry];
    assert all[1..] == [JnaPath, WinDirs, WinRegistry];
    assert all[1..][1..] == [WinDirs, WinRegistry];
    assert all[1..][1..][1..] == [WinRegistry];
    assert KeepSupported(h, [WinRegistry]) == [WinRegistry];
    assert KeepSupported(h, [WinDirs, WinRegistry]) == [WinDirs, WinRegistry];
  }

  lemma WindowsSorted()
    ensures SortByPriority([WinDirs, JnaPath]) == [WinDirs, JnaPath]
    ensures SortByPriority([SystemLegacy, JnaPath, WinDirs, WinRegistry]) == [WinRegistry, WinDirs, JnaPath, SystemLegacy]
  {
    assert [WinDirs, JnaPath][..1] == [WinDirs] && [WinDirs][..0] == [];
    assert SortByPriority([WinDirs]) == [WinDirs];
    var kept := [SystemLegacy, JnaPath, WinDirs, WinRegistry];
    assert kept[..3] == [SystemLegacy, JnaPath, WinDirs];
    assert kept[..3][..2] == [SystemLegacy, JnaPath];
    assert kept[..3][..2][..1] == [SystemLegacy] && kept[..3][..2][..1][..0] == [];
    assert SortByPriority([SystemLegacy]) == [SystemLegacy];
    assert SortByPriority([SystemLegacy, JnaPath]) == [JnaPath, SystemLegacy];
    assert Insert(WinDirs, [JnaPath, SystemLegacy]) == [WinDirs, JnaPath, SystemLegacy];
    assert Insert(WinRegistry, [WinDirs, JnaPath, SystemLegacy]) == [WinRegistry, WinDirs, JnaPath, SystemLegacy];
  }

  /** On Windows with `jna.library.path` set, the current copy's providers
      leave the fixed directory, then `jna.library.path`: its PATH provider
      excludes Windows and the macOS and Linux ones do not apply. The
      intermediate copy's providers ask the registry's install directory
      first, then the fixed directory, then `jna.library.path`, then
      `PATH`. */
  lemma WindowsProviderOrder(h: Host)
    requires h.os == Windows && h.jnaLibraryPath.Some?
    ensures SupportedProviders(h, [SystemPath, WinDirs, JnaPath, MacDirs, LinuxDirs]) == [WinDirs, JnaPath]
    ensures SupportedProviders(h, [SystemLegacy, JnaPath, WinDirs, WinRegistry])
              == [WinRegistry, WinDirs, JnaPath, SystemLegacy]
  {
    WindowsKeptCurrent(h);
    WindowsKeptIntermediate(h);
    WindowsSorted();
  }

  /** The fixed-directory providers give the same non-empty lists on every
      host, whatever its environment or registry; the Linux list runs from
      the multiarch directory to `/bin`. */
  lemma FixedDirectoriesConstant(h: Host, h': Host)
    ensures Directories(h, LinuxDirs) == Directories(h', LinuxDirs)
    ensures Directories(h, MacDirs) == Directories(h', MacDirs)
    ensures Directories(h, WinDirs) == Directories(h', WinDirs)
    ensures |Directories(h, LinuxDirs)| == 14
    ensures Directories(h, LinuxDirs)[0] == "/usr/lib/x86_64-linux-gnu" && Directories(h, LinuxDirs)[13] == "/bin"
    ensures |Directories(h, MacDirs)| == 2 && |Directories(h, WinDirs)| == 1
  {
  }

  /** The registry provider gives exactly the install directory when the
      registry read succeeds and nothing when it throws; it applies exactly
      on Windows and is asked before the fixed Windows directory. */
  lemma RegistryProviderSpec(h: Host)
    ensures Supported(h, WinRegistry) <==> h.os == Windows
    ensures h.registryInstallDir.Some? ==> Directories(h, WinRegistry) == [h.registryInstallDir.value]
    ensures h.registryInstallDir.None? ==> Directories(h, WinRegistry) == []
    ensures h.os == Windows ==> SupportedProviders(h, [WinDirs, WinRegistry]) == [WinRegistry, WinDirs]
  {
    if h.os == Windows {
      assert KeepSupported(h, [WinDirs, WinRegistry]) == [WinDirs, WinRegistry] by {
        assert [WinDirs, WinRegistry][1..] == [WinRegistry];
      }
      assert [WinDirs, WinRegistry][..1] == [WinDirs];
      assert SortByPriority([WinDirs]) == [WinDirs];
      assert Insert(WinRegistry, [WinDirs]) == [WinRegistry, WinDirs];
    }
  }
}
