/** The native side discovery touches: JNA's static tables of per-library
    search paths and loaded libraries, the process environment that libVLC
    reads, and the calls whose outcome only the platform knows (`setenv`,
    `_putenv`, loading a library, creating a libVLC instance), which are
    parameters here. */
module Native {
  import opened Wrappers
  import opened FileSystem
  import opened Providers

  /** `VideoLan4J.LIBVLC_NAME` / `LIBVLCCORE_NAME`: JNA's names for the two
      libraries, which carry the `lib` prefix only on Windows. */
  function LibvlcName(os: Os): string {
    if os == Windows then "libvlc" else "vlc"
  }

  function LibvlcCoreName(os: Os): string {
    if os == Windows then "libvlccore" else "vlccore"
  }

  /** The environment variable libVLC reads its plugin directory from. */
  const PluginEnvName: string := "VLC_PLUGIN_PATH"

  /** JNA's `NativeLibrary.searchPaths` (library name to extra directories)
      and the names cached in `NativeLibrary.libraries`. */
  datatype Jna = Jna(searchPaths: map<string, seq<string>>, libraries: set<string>)

  /** `NativeLibrary.addSearchPath(lib, path)`: appends, duplicates kept. */
  function AddSearchPath(j: Jna, lib: string, path: string): Jna {
    var before := if lib in j.searchPaths then j.searchPaths[lib] else [];
    j.(searchPaths := j.searchPaths[lib := before + [path]])
  }

  /** The search paths JNA holds for a library. */
  function SearchPathsOf(j: Jna, lib: string): seq<string> {
    if lib in j.searchPaths then j.searchPaths[lib] else []
  }

  /** Adding a path appends it to that library's list and touches nothing
      else. */
  lemma AddSearchPathSpec(j: Jna, lib: string, path: string)
    ensures SearchPathsOf(AddSearchPath(j, lib, path), lib) == SearchPathsOf(j, lib) + [path]
    ensures forall other :: other != lib ==> SearchPathsOf(AddSearchPath(j, lib, path), other) == SearchPathsOf(j, other)
    ensures AddSearchPath(j, lib, path).libraries == j.libraries
  {
  }

  /** The reflective clean-up: both names leave both tables. */
  function Forget(j: Jna, names: set<string>): (r: Jna) {
    Jna(j.searchPaths - names, j.libraries - names)
  }

  /** After the clean-up the forgotten libraries have no search paths and no
      cached instance, and every other library is as it was. */
  lemma ForgetSpec(j: Jna, names: set<string>)
    ensures forall n :: n in names ==> SearchPathsOf(Forget(j, names), n) == [] && n !in Forget(j, names).libraries
    ensures forall n :: n !in names ==>
              (SearchPathsOf(Forget(j, names), n) == SearchPathsOf(j, n)
               && (n in Forget(j, names).libraries <==> n in j.libraries))
    ensures Forget(Forget(j, names), names) == Forget(j, names)
  {
  }

  /** What probing libVLC yields: a linkage `Error` (caught by the probe), a
      null instance, or an instance and the version string it reports. */
  datatype Probe = LinkError | NoInstance | Instance(version: string)

  /** The whole state discovery reads and writes. `host.env` is the JVM's
      snapshot of the environment (`System.getenv`), which native `setenv`
      calls do not change; `nativeEnv` is the process environment libVLC
      will see; `fs` carries the working directory. */
  datatype World = World(host: Host, fs: Fs, props: map<string, string>,
                         nativeEnv: map<string, string>, jna: Jna)

  /** The outcomes only the platform decides: the status `setenv` and
      `_putenv` return (0 is success), whether libvlccore loads from the
      search paths, what creating an instance yields, and whether the
      reflective access to JNA's private tables succeeds. */
  datatype Natives = Natives(setenv: (string, string) -> int, putenv: string -> int,
                             coreLoads: World -> bool, probe: World -> Probe, reflectionWorks: bool)

  /** The name part of a `_putenv` argument: everything before the first `=`. */
  function AssignmentName(s: string): (name: string)
    ensures name <= s && '=' !in name
    ensures |name| < |s| ==> s[|name|] == '='
  {
    if s == [] || s[0] == '=' then [] else [s[0]] + AssignmentName(s[1..])
  }

  /** `_putenv("NAME=value")` on success: sets the variable, or removes it when
      the value is empty; an argument without `=` changes nothing. */
  function PutenvEffect(env: map<string, string>, s: string): map<string, string> {
    var name := AssignmentName(s);
    if |name| == |s| then env
    else
      var value := s[|name| + 1..];
      if value == [] then env - {name} else env[name := value]
  }

  lemma {:induction false} AssignmentNameOf(name: string, rest: string)
    requires '=' !in name
    ensures AssignmentName(name + "=" + rest) == name
    decreases |name|
  {
    if name == [] {
      assert (name + "=" + rest)[0] == '=';
    } else {
      assert (name + "=" + rest)[1..] == name[1..] + "=" + rest;
      assert '=' !in name[1..] by { assert forall x :: x in name[1..] ==> x in name; }
      AssignmentNameOf(name[1..], rest);
    }
  }

  /** Formatting `NAME=value` and applying it sets exactly that variable to
      that value, or removes it when the value is empty. */
  lemma PutenvAssigns(env: map<string, string>, name: string, value: string)
    requires '=' !in name
    ensures PutenvEffect(env, name + "=" + value) == if value == [] then env - {name} else env[name := value]
  {
    AssignmentNameOf(name, value);
    assert (name + "=" + value)[|name| + 1..] == value;
  }

  /** libvlccore's name is libvlc's with `core` appended, on every platform,
      so the two never share a search-path list. */
  lemma LibraryNamesDistinct(os: Os)
    ensures LibvlcCoreName(os) == LibvlcName(os) + "core"
    ensures LibvlcName(os) != LibvlcCoreName(os)
  {
    assert |LibvlcCoreName(os)| == |LibvlcName(os)| + 4;
  }
}
