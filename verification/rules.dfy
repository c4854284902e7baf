/** Platform rules (the environments of the current discovery, the
    strategies of the legacy one): which file names make a libVLC
    directory, where the plugins live relative to it, how the plugin
    variable is published, and the macOS workaround that loads libvlccore
    first. */
module Rules {
  import opened Wrappers
  import opened Text
  import opened FileSystem
  import opened Patterns
  import opened Providers
  import opened Native
  import opened Scanner

  /** How `setPluginPath` publishes the plugin directory: `setenv` of the
      first existing plugin directory below the found one, or `_putenv` of
      the found directory itself. */
  datatype PluginMode = SetenvFirstExisting | PutenvFoundDirectory

  /** When `onFound` loads libvlccore before anything else. */
  datatype Preload = NoPreload | WhenPropertyTrue | AlwaysPreload

  datatype Rule = Rule(name: string, os: Os, patterns: seq<Pattern>, pluginPaths: seq<string>,
                       pluginMode: PluginMode, preload: Preload)

  /** The system property gating the macOS workaround. */
  const MacWorkaroundProperty: string := "videolan4j.disableMacWorkarounds"

  const OrgWin: Rule := Rule("WinEnvironment", Windows, WinPatterns, ["plugins/", "vlc/plugins/"],
                             PutenvFoundDirectory, NoPreload)

  const OrgMac: Rule := Rule("MacEnvironment", Mac, MacPatterns, ["../plugins"],
                             SetenvFirstExisting, WhenPropertyTrue)

  /** The Linux environment of the intermediate copy. */
  const MeLinux: Rule := Rule("LinuxEnvironment", Linux, SoPatterns, ["plugins/", "vlc/plugins/"],
                              SetenvFirstExisting, NoPreload)

  /** The Windows environment of the intermediate copy: it looks for the
      shared-object names. */
  const MeWin: Rule := Rule("WinEnvironment", Windows, SoPatterns, ["plugins/", "vlc/plugins/"],
                            PutenvFoundDirectory, NoPreload)

  /** The legacy macOS strategy: the workaround always runs. */
  const UkMac: Rule := Rule("MacOsStrategy", Mac, MacPatterns, ["../plugins"],
                            SetenvFirstExisting, AlwaysPreload)

  /** `supported()`: the rule's platform is the host's. */
  predicate RuleSupported(h: Host, r: Rule) {
    h.os == r.os
  }

  /** What escapes discovery as an exception instead of a `false`. */
  datatype Fault =
      /** `NativeLibrary.getInstance(libvlccore)` threw `UnsatisfiedLinkError`. */
    | CoreLibraryMissing
      /** libVLC reported a version string the version pattern rejects, or
          with a number too large for an `int`. */
    | MalformedVersion

  /** `Path.toString` of a relative path drops its trailing slashes. */
  function TrimTrailingSlashes(s: string): (r: string)
    ensures r <= s && (r == [] || r[|r| - 1] != '/')
    ensures forall i :: |r| <= i < |s| ==> s[i] == '/'
    decreases |s|
  {
    if s != [] && s[|s| - 1] == '/' then TrimTrailingSlashes(s[..|s| - 1]) else s
  }

  /** `base.toPath().resolve(rel)` for a relative `rel`, on a Unix file
      system: an empty side yields the other; no `..` is collapsed. */
  function Resolve(base: string, rel: string): string {
    var r := TrimTrailingSlashes(rel);
    if r == [] then base else if base == [] then r else Join('/', base, r)
  }

  /** The plugin directory candidate `rel` resolves to, when it exists. */
  function ExistingPluginDir(fs: Fs, base: string, rel: string): Option<string> {
    if Exists(fs, Resolve(base, rel)) then Some(Resolve(base, rel)) else None
  }

  /** The first candidate, in the rule's order, that exists below `base`. */
  function FirstExisting(fs: Fs, base: string, rels: seq<string>): Option<string> {
    FirstSome(rels, rel => ExistingPluginDir(fs, base, rel))
  }

  /** `setPluginPath(path)`: whether publishing succeeded, and the world after. */
  function SetPluginPath(r: Rule, n: Natives, w: World, path: string): (bool, World) {
    match r.pluginMode
    case PutenvFoundDirectory =>
      var arg := PluginEnvName + "=" + path;
      if n.putenv(arg) == 0 then (true, w.(nativeEnv := PutenvEffect(w.nativeEnv, arg))) else (false, w)
    case SetenvFirstExisting =>
      match FirstExisting(w.fs, path, r.pluginPaths)
      case None => (false, w)
      case Some(p) =>
        if n.setenv(PluginEnvName, p) == 0 then (true, w.(nativeEnv := w.nativeEnv[PluginEnvName := p]))
        else (false, w)
  }

  /** Whether `onFound` preloads libvlccore. For the current macOS
      environment that is when the property named `disableMacWorkarounds`
      parses as true: the gate runs the workaround exactly when its name
      says it is disabled. */
  predicate PreloadApplies(r: Rule, w: World) {
    r.preload == AlwaysPreload
    || (r.preload == WhenPropertyTrue && ParseBoolean(Lookup(w.props, MacWorkaroundProperty)))
  }

  /** The workaround: add the directory to libvlccore's search paths, then
      load libvlccore; a load failure escapes. */
  function PreloadCore(r: Rule, n: Natives, w: World, path: string): Result<World, Fault> {
    if !PreloadApplies(r, w) then Ok(w)
    else
      var core := LibvlcCoreName(w.host.os);
      var w1 := w.(jna := AddSearchPath(w.jna, core, path));
      if n.coreLoads(w1) then Ok(w1.(jna := w1.jna.(libraries := w1.jna.libraries + {core})))
      else Err(CoreLibraryMissing)
  }

  /** `onFound(provider, path)`: the optional workaround, then libvlc's
      search path, then the plugin variable unless the user's environment
      (as the JVM saw it) already has a non-empty one. */
  function OnFound(r: Rule, n: Natives, w: World, path: string): Result<(bool, World), Fault> {
    var w1 :- PreloadCore(r, n, w, path);
    var w2 := w1.(jna := AddSearchPath(w1.jna, LibvlcName(w.host.os), path));
    var env := Lookup(w.host.env, PluginEnvName);
    if env.None? || env.value == [] then Ok(SetPluginPath(r, n, w2, path)) else Ok((true, w2))
  }

  // ---------------------------------------------------------------------

  /** The `setenv` mode: success exactly when some candidate exists and
      `setenv` accepts the first one, which then becomes the variable's
      value; on failure nothing changes; nothing but that variable ever
      changes. */
  lemma SetenvModeSpec(r: Rule, n: Natives, w: World, path: string)
    requires r.pluginMode == SetenvFirstExisting
    ensures var (ok, w') := SetPluginPath(r, n, w, path);
            (ok <==> FirstExisting(w.fs, path, r.pluginPaths).Some?
                     && n.setenv(PluginEnvName, FirstExisting(w.fs, path, r.pluginPaths).value) == 0)
            && (ok ==> w' == w.(nativeEnv := w.nativeEnv[PluginEnvName := FirstExisting(w.fs, path, r.pluginPaths).value]))
            && (!ok ==> w' == w)
    ensures (FirstExisting(w.fs, path, r.pluginPaths).None?)
              <==> forall i :: 0 <= i < |r.pluginPaths| ==> !Exists(w.fs, Resolve(path, r.pluginPaths[i]))
    ensures FirstExisting(w.fs, path, r.pluginPaths).Some? ==>
              exists i :: 0 <= i < |r.pluginPaths|
                && FirstExisting(w.fs, path, r.pluginPaths).value == Resolve(path, r.pluginPaths[i])
                && Exists(w.fs, Resolve(path, r.pluginPaths[i]))
                && forall j :: 0 <= j < i ==> !Exists(w.fs, Resolve(path, r.pluginPaths[j]))
  {
    FirstSomeSpec(r.pluginPaths, rel => ExistingPluginDir(w.fs, path, rel));
  }

  /** The `_putenv` mode publishes the found directory itself, not a plugin
      directory below it, and removes the variable when that directory is
      the empty string. */
  lemma PutenvModeSpec(r: Rule, n: Natives, w: World, path: string)
    requires r.pluginMode == PutenvFoundDirectory
    ensures var (ok, w') := SetPluginPath(r, n, w, path);
            (ok <==> n.putenv(PluginEnvName + "=" + path) == 0)
            && (ok && path != [] ==> w' == w.(nativeEnv := w.nativeEnv[PluginEnvName := path]))
            && (ok && path == [] ==> w' == w.(nativeEnv := w.nativeEnv - {PluginEnvName}))
            && (!ok ==> w' == w)
  {
    PutenvAssigns(w.nativeEnv, PluginEnvName, path);
  }

  /** Publishing the plugin directory changes the process environment and
      nothing else. */
  lemma SetPluginPathFrame(r: Rule, n: Natives, w: World, path: string)
    ensures SetPluginPath(r, n, w, path).1 == w.(nativeEnv := SetPluginPath(r, n, w, path).1.nativeEnv)
  {
  }

  /** `onFound` fails with an exception exactly when the workaround runs and
      libvlccore does not load. */
  lemma OnFoundFails(r: Rule, n: Natives, w: World, path: string)
    ensures OnFound(r, n, w, path).Err? <==>
              PreloadApplies(r, w)
              && !n.coreLoads(w.(jna := AddSearchPath(w.jna, LibvlcCoreName(w.host.os), path)))
  {
  }

  /** When it returns, libvlc's search paths have gained the directory,
      libvlccore's have gained it only under the workaround, and the host,
      file system and properties are unchanged. */
  lemma OnFoundSearchPaths(r: Rule, n: Natives, w: World, path: string)
    requires LibvlcName(w.host.os) != LibvlcCoreName(w.host.os)
    requires OnFound(r, n, w, path).Ok?
    ensures var w' := OnFound(r, n, w, path).value.1;
            w'.host == w.host && w'.fs == w.fs && w'.props == w.props
            && SearchPathsOf(w'.jna, LibvlcName(w.host.os)) == SearchPathsOf(w.jna, LibvlcName(w.host.os)) + [path]
            && SearchPathsOf(w'.jna, LibvlcCoreName(w.host.os))
                 == SearchPathsOf(w.jna, LibvlcCoreName(w.host.os)) + (if PreloadApplies(r, w) then [path] else [])
  {
    var vlc := LibvlcName(w.host.os);
    var core := LibvlcCoreName(w.host.os);
    var w1 := PreloadCore(r, n, w, path).value;
    AddSearchPathSpec(w.jna, core, path);
    AddSearchPathSpec(w1.jna, vlc, path);
    assert SearchPathsOf(w1.jna, vlc) == SearchPathsOf(w.jna, vlc);
    assert SearchPathsOf(w1.jna, core) == SearchPathsOf(w.jna, core) + (if PreloadApplies(r, w) then [path] else []);
    var w2 := w1.(jna := AddSearchPath(w1.jna, vlc, path));
    SetPluginPathFrame(r, n, w2, path);
  }

  /** A non-empty plugin variable in the user's environment, as the JVM saw
      it, is left alone and counts as success. */
  lemma OnFoundKeepsUserPluginPath(r: Rule, n: Natives, w: World, path: string)
    requires OnFound(r, n, w, path).Ok?
    requires Lookup(w.host.env, PluginEnvName).Some? && Lookup(w.host.env, PluginEnvName).value != []
    ensures OnFound(r, n, w, path).value.0
    ensures OnFound(r, n, w, path).value.1.nativeEnv == w.nativeEnv
  {
  }

  /** Otherwise the answer is that of publishing the plugin directory. */
  lemma OnFoundPublishes(r: Rule, n: Natives, w: World, path: string)
    requires OnFound(r, n, w, path).Ok?
    requires Lookup(w.host.env, PluginEnvName).None? || Lookup(w.host.env, PluginEnvName).value == []
    ensures var w2 := PreloadCore(r, n, w, path).value;
            OnFound(r, n, w, path).value
              == SetPluginPath(r, n, w2.(jna := AddSearchPath(w2.jna, LibvlcName(w.host.os), path)), path)
  {
  }

  /** The current macOS environment runs the workaround only when
      `videolan4j.disableMacWorkarounds` is "true" in any case; the legacy
      strategy always runs it; the other rules never do. */
  lemma WorkaroundGates(w: World)
    ensures PreloadApplies(OrgMac, w) <==> ParseBoolean(Lookup(w.props, MacWorkaroundProperty))
    ensures PreloadApplies(UkMac, w)
    ensures !PreloadApplies(OrgWin, w) && !PreloadApplies(MeLinux, w) && !PreloadApplies(MeWin, w)
  {
  }

  lemma TrimExamples()
    ensures TrimTrailingSlashes("plugins/") == "plugins"
    ensures TrimTrailingSlashes("vlc/plugins/") == "vlc/plugins"
    ensures TrimTrailingSlashes("../plugins") == "../plugins"
  {
    assert "plugins/"[..7] == "plugins";
    assert "vlc/plugins/"[..11] == "vlc/plugins";
  }

  /** Resolving the plugin directories below a found directory. */
  lemma ResolveExamples()
    ensures Resolve("/opt/vlc/lib", "plugins/") == "/opt/vlc/lib/plugins"
    ensures Resolve("/opt/vlc/lib", "vlc/plugins/") == "/opt/vlc/lib/vlc/plugins"
    ensures Resolve("/Applications/VLC.app/Contents/MacOS/lib", "../plugins")
              == "/Applications/VLC.app/Contents/MacOS/lib/../plugins"
    ensures Resolve("", "plugins/") == "plugins"
  {
    TrimExamples();
  }

  /** The intermediate Windows rule looks for shared-object names, so a
      directory whose only files are the two DLLs of a Windows installation
      is never accepted by it. */
  lemma MeWinRejectsDllInstallation(fs: Fs, d: string)
    requires var l := ListFiles(fs, FixedFile(fs, d));
             l.Some? ==> forall e :: e in l.value ==>
               e == "libvlc.dll" || e == "libvlccore.dll" || IsDirectory(fs, Join(fs.sep, FixedFile(fs, d), e))
    ensures FlatFind(fs, MeWin.patterns, d) == None
  {
    FlatFindSpec(fs, MeWin.patterns, d);
    var root := FixedFile(fs, d);
    if ListFiles(fs, root).Some? {
      var es := ListFiles(fs, root).value;
      assert SoPatterns[0] in SoPatterns;
      SoPatternsRejectDll(SoPatterns[0]);
      forall e | e in es && Eligible(fs, root, true, e)
        ensures !Matches(MeWin.patterns[0], e)
      {
      }
      assert !Covered(fs, root, true, es, MeWin.patterns);
    }
  }
}
