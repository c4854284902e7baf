# videolan4j native discovery, modelled in Dafny

This project models how videolan4j finds the libVLC native libraries before it binds them through JNA, and a few
small parts that sit around that search.

The repository carries three near-copies of the discovery code:

- the current one, `org.watermedia.videolan4j`;
- an intermediate one, `me.srrapero720.videolan4j`;
- the legacy vlcj-derived one, `uk.co.caprica.vlcj`.

The model covers the following:

- **Providers** (`Providers`). Each provider has a priority and says whether it applies on this host. It also gives
  the directories to search: fixed install directories, `PATH`, `jna.library.path`, or the Windows registry's
  `InstallDir`. `getProviders()` keeps the supported providers and sorts them stably by priority.
- **Rules** (`Patterns`, `Rules`). These are the environments and strategies. Each rule has file-name patterns, for
  example `libvlc\.dll` or `libvlc\.so(?:\.\d)*`, and plugin-directory candidates. A rule publishes the plugin
  directory in one of two ways:
  - `setenv` of the first existing plugin directory below the found directory;
  - on Windows, `_putenv` of the found directory itself.

  The macOS rule has a workaround that preloads libvlccore. The current copy gates it on the property named
  `videolan4j.disableMacWorkarounds` being true, so the workaround runs exactly when its name says it is disabled.
- **Scanning a directory** (`Scanner`, `FileSystem`). The flat scan follows one level of symbolic link, lists the
  directory and skips sub-directories. `getFixedFile` hands on a link's stored target as it is, so a relative
  target is listed below the working directory rather than below the link's own directory, where the operating
  system would find it. It accepts the directory once every pattern has matched some file. Matches
  are counted by pattern text in a hash set. The legacy copy adds a fallback that descends one level:
  - it skips sub-directories with more than 16 entries;
  - it gives up at the first entry it cannot list;
  - it shares one match set across the whole fallback.
- **The discovery loop** (`Discovery`). For every supported rule it works out a candidate directory. It publishes
  the directory, probes a libVLC instance, and requires a version of at least 3.0.0, parsed by `Version`
  (`Versions`). On success it commits the rule and directory to the static fields. On failure it removes both
  libraries from JNA's tables by reflection and moves on. Discovery is idempotent once it has succeeded.
- **Media locations** (`Mrl`). The `getMediaInstance` overloads differ between the copies:
  - the current copy opens a `file` URI by its path;
  - the two older copies rewrite `file:/` to `file:///` with the global `String.replace`.
- **Aligned buffers** (`Buffers`). `ByteBufferFactory.alloc1` over-allocates by the alignment and slices at the
  first aligned address.

**How the candidate is chosen.** The two loop shapes choose the candidate directory differently, and the model
follows the code of each:

- **Current copy.** The inner `break` leaves only the directory loop. So the candidate is always decided by the
  LAST provider that has any directories, and it may be that provider's miss. A lower-priority provider can
  therefore override a higher-priority one's hit, even though the providers are sorted by priority first.
  `Scenarios` shows this on a concrete Windows machine: the installation is found by the HIGH provider, and then
  the NORMAL `jna.library.path` provider overwrites it with a miss. A first-hit loop given the same Windows rule
  would pick the installation.
- **Intermediate copy.** It stops at the first provider with a hit, which is what the priority order suggests.
  Its Windows rule looks for `.so` names, though, so on the same machine it gets no candidate either.

**What the model takes as parameters.** Everything the platform decides is a parameter of the model:

- the operating system;
- the environment and properties the JVM saw at start-up;
- the registry value;
- the file system, as a map from absolute path strings to nodes, with the separator and the working directory;
- the status codes of `setenv`/`_putenv`;
- whether libvlccore loads;
- what a libVLC instance reports;
- whether reflection on JNA's fields works.

`Natives` bundles these platform answers. `World` holds the state that discovery reads and writes.

## Model

| member | source | states |
|---|---|---|
| Versions.MatchIffPattern | src/main/java/org/watermedia/videolan4j/tools/Version.java:12-28 | the matcher succeeds exactly on the strings the version pattern describes: three ASCII digit runs separated by dots, an optional `-`, `_` or whitespace, then any line-terminator-free rest |
| Versions.MatchGreedy | src/main/java/org/watermedia/videolan4j/tools/Version.java:12 | the groups reported for a rendered greedy decomposition are that decomposition: the decomposition is unique |
| Versions.Parse | src/main/java/org/watermedia/videolan4j/tools/Version.java:25-40 | a parsed version keeps the input as its string, has numbers within `int`, and its input matches the pattern; the no-match error is raised exactly for strings the pattern rejects |
| Versions.ParseGroups | src/main/java/org/watermedia/videolan4j/tools/Version.java:28-36 | a matching string yields its three group values and its fourth group as extra, or a number-format failure when a group exceeds `Integer.MAX_VALUE` |
| Versions.ParseNumbers | src/main/java/org/watermedia/videolan4j/tools/Version.java:29-31 | printing three numbers and parsing gives them back with empty extra; numbers above `Integer.MAX_VALUE` make the parse fail |
| Versions.ParseExtra | src/main/java/org/watermedia/videolan4j/tools/Version.java:32-36 | one optional separator is dropped and the whole rest becomes extra |
| Versions.GreedyRevisionExample | src/main/java/org/watermedia/videolan4j/tools/Version.java:12-31 | the third group is greedy: "3.0.18abc" has revision 18 and extra "abc" |
| Versions.CompareTo | src/main/java/org/watermedia/videolan4j/tools/Version.java:98-108 | for valid versions the difference fits an `int`; its sign is negative, zero or positive exactly when the first is lexicographically below, equal in numbers to, or above the second |
| Versions.CompareToAntisymmetric | src/main/java/org/watermedia/videolan4j/tools/Version.java:98-108 | `a.compareTo(b) < 0` exactly when `b.compareTo(a) > 0` |
| Versions.AtLeast | src/main/java/org/watermedia/videolan4j/tools/Version.java:93-95 | `atLeast` holds exactly when the version is not lexicographically below the required one |
| Versions.AtLeastTransitive | src/main/java/org/watermedia/videolan4j/tools/Version.java:93-95 | `atLeast` is transitive |
| Versions.AtLeastTotal | src/main/java/org/watermedia/videolan4j/tools/Version.java:93-108 | any two versions are comparable, and each is at least the other exactly when their numbers agree (extra ignored) |
| Versions.AtLeastExamples | src/main/java/org/watermedia/videolan4j/tools/Version.java:93-95 | 3.1.0 is at least 3.0.9; 2.9.9 is not at least 3.0.0 |
| Versions.MinVersionParses | src/main/java/org/watermedia/videolan4j/VideoLan4J.java:26 | the minimum version constant is what "3.0.0" parses to |
| FileSystem.FixedFile | src/main/java/org/watermedia/videolan4j/tools/IOTools.java:16-24 | the fixed path is the path itself unless the path is a readable symbolic link, in which case it is the link's target |
| FileSystem.FixedFileOneLevel | src/main/java/org/watermedia/videolan4j/tools/IOTools.java:17-21 | only one link level is resolved: a link to a link gives the middle link |
| FileSystem.FixedFileListsSame | src/main/java/org/watermedia/videolan4j/discovery/DiscoveryEnvironment.java:62-63 | for a path that is no link, or a link with an absolute target, listing the fixed path lists the same entries as listing the path itself |
| FileSystem.FixedFileRelativeTarget | src/main/java/org/watermedia/videolan4j/tools/IOTools.java:17-21 | for a link with a relative target, the fixed path denotes the target below the working directory, while the path itself denotes the target below the link's own directory |
| FileSystem.MergedUsrBin | src/main/java/org/watermedia/videolan4j/tools/IOTools.java:17-21 | `/bin -> usr/bin` lists `/usr/bin` through the operating system, but its fixed path `usr/bin` cannot be listed from `/home/user` |
| FileSystem.AbsolutePathExamples | src/main/java/uk/co/caprica/vlcj/discovery/providers/DiscoveryPathProvider.java:88 | `toAbsolutePath()` keeps Windows drive and UNC paths and Unix rooted paths, and places other paths below the working directory |
| Patterns.SharedObjectShape | src/main/java/me/srrapero720/videolan4j/discovery/environments/LinuxEnvironment.java:17-18 | a name `stem.so` + suffix matches a shared-object pattern exactly when the suffix is a run of dot-digit pairs |
| Patterns.SharedObjectExamples | src/main/java/me/srrapero720/videolan4j/discovery/environments/LinuxEnvironment.java:17 | `libvlc.so`, `libvlc.so.5` and `libvlc.so.5.6.1` match; `libvlc.so.12`, `libvlc.so.` and `libvlc.dll` do not |
| Patterns.SoPatternsDisjoint | src/main/java/me/srrapero720/videolan4j/discovery/environments/LinuxEnvironment.java:15-20 | no file name matches both shared-object patterns |
| Patterns.SoPatternsRejectDll | src/main/java/me/srrapero720/videolan4j/discovery/environments/WinEnvironment.java:16-21 | the intermediate Windows environment's patterns match neither Windows library name |
| Patterns.SourcesDiffer | src/main/java/org/watermedia/videolan4j/discovery/DiscoveryEnvironment.java:79 | different patterns of one shape have different pattern texts, the key of the match set |
| Patterns.PatternListsDistinct | src/main/java/org/watermedia/videolan4j/discovery/environments/WinEnvironment.java:16-21 | within each platform's pattern list no two pattern texts coincide |
| Scanner.SourcesCard | src/main/java/org/watermedia/videolan4j/discovery/DiscoveryEnvironment.java:72-80 | a pattern list has as many distinct texts as patterns exactly when no two share a text, the case in which the size test can succeed |
| Scanner.MatchNameSpec | src/main/java/org/watermedia/videolan4j/discovery/DiscoveryEnvironment.java:76-83 | the inner pattern loop adds the name's matching pattern texts and stops exactly when the set reaches the number of patterns |
| Scanner.AbsorbSpec | src/main/java/org/watermedia/videolan4j/discovery/DiscoveryEnvironment.java:74-85 | the listing loop completes exactly when the eligible entries' matches fill the set, otherwise leaves that set |
| Scanner.AbsorbNoPatterns | src/main/java/org/watermedia/videolan4j/discovery/DiscoveryEnvironment.java:76-82 | with no patterns the size test never runs and the scan never accepts |
| Scanner.AbsorbCompleteIff | src/main/java/org/watermedia/videolan4j/discovery/DiscoveryEnvironment.java:71-88 | a fresh scan completes exactly when there is a pattern, the pattern texts are distinct, and every pattern is matched by some eligible entry |
| Scanner.FlatFindSpec | src/main/java/org/watermedia/videolan4j/discovery/DiscoveryEnvironment.java:61-89 | `find(directory)` answers the directory string itself or null, and the string exactly when the fixed path lists and its non-directory entries cover every pattern |
| Scanner.FlatOrderIrrelevant | src/main/java/org/watermedia/videolan4j/discovery/DiscoveryEnvironment.java:74-85 | listings with the same entries in another order give the same answer |
| Scanner.LegacyExtendsFlat | src/main/java/uk/co/caprica/vlcj/discovery/providers/DiscoveryPathProvider.java:40-69 | the legacy scan answers the flat answer when there is one, null for an unlistable directory, and otherwise what the fallback answers |
| Scanner.DescendAnswer | src/main/java/uk/co/caprica/vlcj/discovery/providers/DiscoveryPathProvider.java:69-93 | a fallback answer is the absolute path (drive and UNC paths count as absolute on Windows) of the fixed path of some root entry that lists at most 16 entries, every entry visited up to it being listable |
| Scanner.DescendStopsAtUnlistable | src/main/java/uk/co/caprica/vlcj/discovery/providers/DiscoveryPathProvider.java:72-73 | a fallback answer comes from an entry before the first unlistable one |
| Scanner.FirstSomeSpec | src/main/java/uk/co/caprica/vlcj/discovery/providers/DiscoveryPathProvider.java:32-38 | a provider's answer is that of its first directory with an answer, and null exactly when no directory has one |
| Providers.PathDirectoriesSpec | src/main/java/org/watermedia/videolan4j/discovery/providers/SystemPathProvider.java:20-26 | the `PATH` providers give no directory when `PATH` is unset, otherwise the pieces of `PATH` between separators, minus only trailing empty pieces; no directory contains the separator |
| Providers.EmptyPathGivesOneDirectory | src/main/java/org/watermedia/videolan4j/discovery/providers/SystemPathProvider.java:21-23 | an empty `PATH` yields one empty directory name, as `String.split` does |
| Text.SplitRecovers | src/main/java/org/watermedia/videolan4j/discovery/providers/JnaPathProvider.java:22 | `String.split` gives the pieces between separators, minus only trailing empty pieces, and the whole input when it holds no separator |
| Providers.SortSpec | src/main/java/org/watermedia/videolan4j/discovery/DiscoveryEnvironment.java:55-56 | the sort is a permutation, ordered by priority, and keeps each priority's providers in their original order |
| Providers.SupportedProvidersSpec | src/main/java/org/watermedia/videolan4j/discovery/DiscoveryEnvironment.java:46-59 | `getProviders()` holds exactly the supported registrations, sorted by priority, ties in registration order |
| Providers.KeepSupportedMember | src/main/java/org/watermedia/videolan4j/discovery/DiscoveryEnvironment.java:50-53 | a provider is kept exactly when it is registered and supported |
| Providers.PriorityExtremes | src/main/java/me/srrapero720/videolan4j/discovery/DiscoveryProvider.java:31-38 | an OVERWRITE provider is never preceded by another priority and a LOWEST one never followed by another |
| Providers.LinuxProviderOrder | src/main/java/org/watermedia/videolan4j/discovery/DiscoveryEnvironment.java:46-59 | on Linux with `jna.library.path` set: distribution directories, then `jna.library.path`, then `PATH`, whatever the registration order |
| Providers.WindowsProviderOrder | src/main/java/me/srrapero720/videolan4j/discovery/strategies/DiscoveryStrategy.java:17-30 | on Windows with `jna.library.path` set: the current copy's providers give the fixed directory, then `jna.library.path`, its `PATH` provider being dropped; the intermediate copy's give the registry's install directory, the fixed directory, `jna.library.path`, then `PATH` |
| Providers.FixedDirectoriesConstant | src/main/java/org/watermedia/videolan4j/discovery/providers/LinuxProvider.java:18-34 | the fixed-directory providers give the same non-empty lists on every host; the Linux list has 14 entries from `/usr/lib/x86_64-linux-gnu` to `/bin`, macOS two, Windows one |
| Providers.RegistryProviderSpec | src/main/java/me/srrapero720/videolan4j/discovery/providers/WinRegistryProvider.java:13-30 | the registry provider applies exactly on Windows, gives exactly the install directory when the read succeeds and nothing when it throws, and is asked before the fixed Windows directory |
| Native.AddSearchPathSpec | src/main/java/org/watermedia/videolan4j/discovery/DiscoveryEnvironment.java:92 | adding a search path appends to that library's list and changes nothing else |
| Native.LibraryNamesDistinct | src/main/java/org/watermedia/videolan4j/VideoLan4J.java:24-25 | libvlccore's JNA name is libvlc's with `core` appended on every platform, so the two names differ |
| Native.ForgetSpec | src/main/java/org/watermedia/videolan4j/discovery/NativeDiscovery.java:94-97 | after the clean-up the forgotten libraries have no search paths and no cached instance, other libraries are untouched, and repeating it changes nothing |
| Native.PutenvAssigns | src/main/java/org/watermedia/videolan4j/discovery/environments/WinEnvironment.java:34 | `_putenv("NAME=value")` sets exactly that variable, or removes it for an empty value |
| Rules.TrimTrailingSlashes | src/main/java/org/watermedia/videolan4j/discovery/DiscoveryEnvironment.java:103 | the relative plugin path loses exactly its trailing slashes, as `Path` normalises it |
| Rules.ResolveExamples | src/main/java/org/watermedia/videolan4j/discovery/DiscoveryEnvironment.java:103 | the plugin candidates resolve below the found directory without collapsing `..` |
| Rules.SetenvModeSpec | src/main/java/org/watermedia/videolan4j/discovery/DiscoveryEnvironment.java:100-110 | publishing succeeds exactly when some candidate exists and `setenv` accepts the first existing one, which becomes the variable's value; a failure changes nothing |
| Rules.PutenvModeSpec | src/main/java/org/watermedia/videolan4j/discovery/environments/WinEnvironment.java:31-35 | the Windows rule publishes the found directory itself, success exactly when `_putenv` returns 0 |
| Rules.SetPluginPathFrame | src/main/java/org/watermedia/videolan4j/discovery/DiscoveryEnvironment.java:100-110 | publishing changes only the process environment |
| Rules.OnFoundFails | src/main/java/org/watermedia/videolan4j/discovery/environments/MacEnvironment.java:30-37 | `onFound` throws exactly when the workaround runs and libvlccore does not load |
| Rules.OnFoundSearchPaths | src/main/java/org/watermedia/videolan4j/discovery/DiscoveryEnvironment.java:91-98 | after `onFound` libvlc's search paths end with the directory, libvlccore's gain it only under the workaround, and host, file system and properties are unchanged |
| Rules.OnFoundKeepsUserPluginPath | src/main/java/org/watermedia/videolan4j/discovery/DiscoveryEnvironment.java:93-97 | a non-empty plugin variable in the start-up environment is left alone and counts as success |
| Rules.OnFoundPublishes | src/main/java/org/watermedia/videolan4j/discovery/DiscoveryEnvironment.java:93-96 | otherwise `onFound` answers what publishing the plugin path answers |
| Rules.WorkaroundGates | src/main/java/org/watermedia/videolan4j/discovery/environments/MacEnvironment.java:31-36 | the current macOS rule preloads libvlccore exactly when `videolan4j.disableMacWorkarounds` parses as true; the legacy strategy always does; the other rules never do |
| Rules.MeWinRejectsDllInstallation | src/main/java/me/srrapero720/videolan4j/discovery/environments/WinEnvironment.java:16-21 | a directory whose only files are `libvlc.dll` and `libvlccore.dll` is never accepted by the intermediate Windows rule |
| Text.ParseBooleanExamples | src/main/java/org/watermedia/videolan4j/discovery/environments/MacEnvironment.java:32 | the gate accepts "true" in any letter case and rejects null, "yes", "1" and the empty string |
| Discovery.FirstHitSpec | src/main/java/org/watermedia/videolan4j/discovery/NativeDiscovery.java:42-46 | the directory loop answers the first directory the scan accepts, null when it accepts none |
| Discovery.ScanCurrentAllEmpty | src/main/java/org/watermedia/videolan4j/discovery/NativeDiscovery.java:39-47 | when no provider has directories, the candidate stays null |
| Discovery.ScanCurrentIsLastNonEmpty | src/main/java/org/watermedia/videolan4j/discovery/NativeDiscovery.java:41-47 | the current candidate is the first hit among the directories of the last provider that has any, whatever earlier providers found |
| Discovery.ScanLegacyIsFirstHit | src/main/java/me/srrapero720/videolan4j/discovery/NativeDiscovery.java:46-52 | the intermediate candidate is the answer of the first provider with one, null exactly when none has one |
| Discovery.TestInstanceSpec | src/main/java/org/watermedia/videolan4j/discovery/NativeDiscovery.java:68-82 | the probe passes exactly when an instance reports a parseable version of at least 3.0.0; an unparseable version escapes; a linkage error changes nothing; only JNA's loaded set can change, and a passing probe leaves libvlc loaded |
| Discovery.VersionGate | src/main/java/org/watermedia/videolan4j/discovery/NativeDiscovery.java:75 | an instance reporting `major.minor.revision` passes exactly when major is at least 3 |
| Discovery.CleanupSpec | src/main/java/org/watermedia/videolan4j/discovery/NativeDiscovery.java:84-103 | a refused clean-up changes nothing; a successful one leaves both libraries without search paths or cache entries |
| Discovery.OnFoundFrame | src/main/java/org/watermedia/videolan4j/discovery/DiscoveryEnvironment.java:91-98 | `onFound` changes neither host, file system (with the working directory) nor properties |
| Discovery.DiscoverIdempotent | src/main/java/org/watermedia/videolan4j/discovery/NativeDiscovery.java:34-35 | after a successful discovery every later call answers true and changes nothing |
| Discovery.TryRulesCommits | src/main/java/org/watermedia/videolan4j/discovery/NativeDiscovery.java:37-64 | host, file system and properties are never changed; false leaves the static fields alone; true commits a supported rule with that rule's candidate, and only after a probe passed: the world left behind is the one a passing probe saw, with libvlc loaded |
| Discovery.TryRulesOrder | src/main/java/org/watermedia/videolan4j/discovery/NativeDiscovery.java:49-61 | a rule without candidate is passed over; an exception from `onFound` or the probe escapes; an attempt that publishes and passes the probe commits; one that fails to publish, or publishes and fails the probe, cleans up and hands the cleaned world to the next rule, or answers false with the static fields unchanged when the clean-up is refused |
| Discovery.NoCandidateNoChange | src/main/java/org/watermedia/videolan4j/discovery/NativeDiscovery.java:37-64 | when no supported rule gets a candidate, discovery answers false and changes nothing |
| Discovery.CleanupRefusedStops | src/main/java/org/watermedia/videolan4j/discovery/NativeDiscovery.java:57-60 | after an attempt that failed to publish or failed the probe, a refused clean-up ends discovery with false at once, keeping what the attempt published and loaded |
| Discovery.MalformedVersionEscapes | src/main/java/org/watermedia/videolan4j/discovery/NativeDiscovery.java:75-78 | an unparseable version string is not caught and leaves discovery as an exception |
| Scenarios.MachineProviders | src/main/java/org/watermedia/videolan4j/discovery/DiscoveryEnvironment.java:46-59 | on the example machine the fixed Windows directory comes before `jna.library.path` |
| Scenarios.FlatScans | src/main/java/org/watermedia/videolan4j/discovery/environments/WinEnvironment.java:16-21 | the current Windows rule's flat scan accepts the example machine's VLC directory and rejects the empty `jna.library.path` directory |
| Scenarios.IntermediateWindowsRuleMisses | src/main/java/me/srrapero720/videolan4j/discovery/environments/WinEnvironment.java:16-21 | the example machine's VLC directory is rejected by the intermediate Windows rule |
| Scenarios.FirstHitLoopPicksInstallation | src/main/java/me/srrapero720/videolan4j/discovery/NativeDiscovery.java:48-52 | given the current copy's Windows rule, the first-hit loop would offer the installed VLC directory |
| Scenarios.IntermediateScanOfInstallation | src/main/java/uk/co/caprica/vlcj/discovery/providers/DiscoveryPathProvider.java:40-93 | with the intermediate Windows rule the installation directory fails the flat pass, and the fallback stops at its first entry, a file |
| Scenarios.IntermediateOffersNothing | src/main/java/me/srrapero720/videolan4j/discovery/NativeDiscovery.java:46-52 | with its own Windows rule the intermediate loop gets no candidate on the example machine |
| Scenarios.CurrentPicksNothing | src/main/java/org/watermedia/videolan4j/discovery/NativeDiscovery.java:41-47 | the current loop lets the later provider's miss overwrite that hit |
| Scenarios.CurrentDiscoveryGivesUp | src/main/java/org/watermedia/videolan4j/discovery/NativeDiscovery.java:37-64 | so current discovery answers false on that machine and changes nothing |
| Mrl.MediaCallsSpec | src/main/java/org/watermedia/videolan4j/VideoLan4J.java:42-53 | a URI with scheme exactly `file` opens by path, any other by location; a missing scheme or path dereferences null; the older copies always open by location |
| Mrl.RewriteMeShape | src/main/java/me/srrapero720/videolan4j/VideoLan4J.java:35-45 | an MRL not starting `file:/`, or already `file:///`, is unchanged; one starting `file:/` comes out starting `file:///` |
| Mrl.RewriteUkShape | src/main/java/uk/co/caprica/vlcj/VideoLan4J.java:34-38 | the same two promises for the legacy rewrite |
| Mrl.RewriteIdempotent | src/main/java/me/srrapero720/videolan4j/VideoLan4J.java:37-43 | rewriting twice equals rewriting once, in both older copies |
| Mrl.OneSlashCompleted | src/main/java/me/srrapero720/videolan4j/VideoLan4J.java:40-41 | `file:/x` becomes `file:///x` in both older copies |
| Mrl.TwoSlashesCompletedMe | src/main/java/me/srrapero720/videolan4j/VideoLan4J.java:38-39 | the intermediate copy turns `file://x` into `file:///x` |
| Mrl.TwoSlashesDoubledUk | src/main/java/uk/co/caprica/vlcj/VideoLan4J.java:36 | the legacy copy turns `file://x` into `file:////x` |
| Mrl.LaterOccurrencesRewritten | src/main/java/me/srrapero720/videolan4j/VideoLan4J.java:39-41 | the replacement is global: a second `file:/` inside the MRL is rewritten too |
| Buffers.MaskIsMod | src/main/java/org/watermedia/videolan4j/ByteBufferFactory.java:82 | masking with `2^k - 1` is the remainder by `2^k` |
| Buffers.IsAlignedIff | src/main/java/org/watermedia/videolan4j/ByteBufferFactory.java:81-83 | `isAligned` holds exactly for multiples of the alignment |
| Buffers.Wrap32 | src/main/java/org/watermedia/videolan4j/ByteBufferFactory.java:55 | `int` addition: the result is in range, exact when the sum fits, and one `2^32` lower when it overflows |
| Buffers.UnalignedOffset | src/main/java/org/watermedia/videolan4j/ByteBufferFactory.java:57-58 | the new position is between 1 and `A - 1` and reaches the next aligned address |
| Buffers.Alloc1Aligned | src/main/java/org/watermedia/videolan4j/ByteBufferFactory.java:54-64 | for sizes the allocation can hold, the slice has exactly `size` bytes at an aligned address, starts less than `A` into a `size + A` allocation and fits, and starts at 0 exactly when the address was aligned |
| Buffers.Alloc1Overflow | src/main/java/org/watermedia/videolan4j/ByteBufferFactory.java:55 | a size whose `size + A` overflows `int` makes `allocateDirect` throw |
| Buffers.Alloc1NegativeSize | src/main/java/org/watermedia/videolan4j/ByteBufferFactory.java:55-62 | for `-A <= size < 0`: refused by `limit` on an aligned address; on an unaligned one with `m = address mod A`, refused by `position` when `m < -size`, by `limit` when `m > A + size`, and otherwise an empty slice at offset `size + A - m` |
| Buffers.Alloc1NegativeExamples | src/main/java/org/watermedia/videolan4j/ByteBufferFactory.java:55-62 | with `A = 16`, `alloc1(-3)` gives an empty slice at address 13 for address 10, and throws for address 2 |

## Left out

- Service loading: the rules and the providers are given as lists in registration order. The order `ServiceLoader`
  finds them in is a property of the class path.
- Platform calls: `Platform.isX`, `System.getenv`, `System.getProperty`, the registry read, `setenv`, `_putenv`,
  loading libvlccore, the libVLC instance probe and reflection are parameters (`Host`, `World`, `Natives`). Only
  their answers are modelled.
- JNA internals: the library cache is keyed by name only. A class-initialisation failure of the binding that
  persists across attempts is not modelled: the probe answers afresh for each state.
- `attemptFix` caches the reflected fields in static fields. This has no observable effect and is not modelled.
- Paths are strings: `java.io.File` and `Path` normalisation (duplicate separators, `.` and `..`,
  case-insensitive Windows names) is not modelled. The exception is the trailing-slash trimming of the relative
  part in `Path.resolve`. The base is not normalised, so `/usr/bin/` with `plugins` gives `/usr/bin//plugins`,
  where Java gives `/usr/bin/plugins`.
- A Windows path rooted without a drive (`\x`) or relative to a drive (`C:x`) is placed below the working directory.
  Java resolves both against a drive instead.
- The operating system follows at most 40 symbolic links while statting a path. Deeper chains count as missing.
- Logging, markers, `DebugDirectory` and `name()` have no effect on the results.
- `ByteBufferFactory.dealloc` and `dealloc1` do nothing and are not modelled. Native addresses are taken as
  non-negative, and the alignment is a parameter `2^k` that fits an `int`.
- The byte order of the slice is not modelled.
- The intermediate copy's `DiscoveryEnvironment`, `DiscoveryPathProvider`, `ProviderPriority` and `Version` are not
  part of this model. They are given the behaviour of their counterparts in the other two copies.
- The legacy copy's Linux and Windows strategies and providers duplicate the rules and providers already modelled,
  and are not modelled separately.
- Concurrency: discovery works on static fields without synchronisation and is modelled as one sequential call.
- `Version.extra` is never null, because the pattern always has a fourth group.
- `Version.version()` and `toString()` return the parsed string, which `Parse` keeps as `raw`.
