/** One concrete Windows machine on which the two loop shapes disagree.
    VLC is installed in the standard directory, which the HIGH
    fixed-directory provider offers, and `jna.library.path` names an empty
    directory, which the NORMAL JNA provider offers after it. Given the
    current copy's Windows rule, a loop that stops at the first provider
    with a hit would pick the installation; the current loop lets the later
    provider overwrite the candidate with its own miss, so the Windows rule
    gets no candidate and discovery gives up. The intermediate copy, whose
    loop does stop at the first hit, looks for `.so` names on Windows and
    finds nothing on this machine either. */
module Scenarios {
  import opened Wrappers
  import opened FileSystem
  import opened Patterns
  import opened Scanner
  import opened Providers
  import opened Native
  import opened Rules
  import opened Discovery

  const VlcDir: string := "C:\\Program Files\\VideoLAN\\VLC"
  const JnaDir: string := "C:\\jna"

  const Installed: Fs := Fs(map[
    VlcDir := Dir(["libvlc.dll", "libvlccore.dll", "plugins"]),
    VlcDir + "\\libvlc.dll" := File,
    VlcDir + "\\libvlccore.dll" := File,
    VlcDir + "\\plugins" := Dir([]),
    JnaDir := Dir([])
  ], FileSeparator(Windows), "C:\\")

  /** Every node of the machine is stored under a drive-absolute path and is
      no link, so it is looked up as it is. */
  lemma Stored(p: string)
    requires p in Installed.nodes && |p| >= 3 && p[0] == 'C' && p[1] == ':' && p[2] == '\\'
    ensures AbsolutePath(Installed, p) == p && FixedFile(Installed, p) == p
    ensures Stat(Installed, p) == Some(Installed.nodes[p])
  {
  }

  const Machine: Host := Host(Windows, map[], Some(JnaDir), None)

  /** The JNA provider comes after the fixed Windows directory. */
  lemma MachineProviders()
    ensures SupportedProviders(Machine, [JnaPath, WinDirs]) == [WinDirs, JnaPath]
    ensures Directories(Machine, WinDirs) == [VlcDir]
    ensures Directories(Machine, JnaPath) == [JnaDir]
  {
    assert KeepSupported(Machine, [JnaPath, WinDirs]) == [JnaPath, WinDirs] by {
      assert [JnaPath, WinDirs][1..] == [WinDirs];
    }
    assert [JnaPath, WinDirs][..1] == [JnaPath];
    assert SortByPriority([JnaPath]) == [JnaPath];
    assert Insert(WinDirs, [JnaPath]) == [WinDirs, JnaPath];
  }

  /** The installation directory holds both Windows libraries as files. */
  lemma InstallationCovered()
    ensures Covered(Installed, VlcDir, true, ["libvlc.dll", "libvlccore.dll", "plugins"], WinPatterns)
  {
    assert Join('\\', VlcDir, "libvlc.dll") == VlcDir + "\\libvlc.dll";
    assert Join('\\', VlcDir, "libvlccore.dll") == VlcDir + "\\libvlccore.dll";
    Stored(VlcDir + "\\libvlc.dll");
    Stored(VlcDir + "\\libvlccore.dll");
    assert Eligible(Installed, VlcDir, true, "libvlc.dll");
    assert Eligible(Installed, VlcDir, true, "libvlccore.dll");
    assert Matches(WinPatterns[0], "libvlc.dll") && Matches(WinPatterns[1], "libvlccore.dll");
  }

  /** The flat scan finds the installation and misses the empty directory. */
  lemma FlatScans()
    ensures FlatFind(Installed, WinPatterns, VlcDir) == Some(VlcDir)
    ensures FlatFind(Installed, WinPatterns, JnaDir) == None
  {
    Stored(VlcDir);
    assert ListFiles(Installed, VlcDir) == Some(["libvlc.dll", "libvlccore.dll", "plugins"]);
    InstallationCovered();
    PatternListsDistinct();
    FlatFindSpec(Installed, WinPatterns, VlcDir);
    Stored(JnaDir);
    assert ListFiles(Installed, JnaDir) == Some([]);
  }

  /** The same installation is invisible to the intermediate Windows rule,
      which looks for `.so` names. */
  lemma IntermediateWindowsRuleMisses()
    ensures FlatFind(Installed, MeWin.patterns, VlcDir) == None
  {
    Stored(VlcDir);
    assert ListFiles(Installed, VlcDir) == Some(["libvlc.dll", "libvlccore.dll", "plugins"]);
    assert IsDirectory(Installed, Join('\\', VlcDir, "plugins")) by {
      assert Join('\\', VlcDir, "plugins") == VlcDir + "\\plugins";
      Stored(VlcDir + "\\plugins");
    }
    MeWinRejectsDllInstallation(Installed, VlcDir);
  }

  const Start: World := World(Machine, Installed, map[], map[], Jna(map[], {}))

  /** Given the current copy's Windows rule, the first-hit loop offers the
      installation. */
  lemma FirstHitLoopPicksInstallation()
    ensures Candidate(Legacy, Start, OrgWin, [JnaPath, WinDirs]) == Some(VlcDir)
  {
    MachineProviders();
    FlatScans();
    LegacyExtendsFlat(Installed, WinPatterns, VlcDir);
    assert LegacyFindIn(Installed, OrgWin, [VlcDir]) == Some(VlcDir);
  }

  /** The intermediate scan of the installation: the flat pass fails and the
      fallback stops at the first entry, a file that cannot be listed. */
  lemma IntermediateScanOfInstallation()
    ensures LegacyFind(Installed, MeWin.patterns, VlcDir) == None
  {
    IntermediateWindowsRuleMisses();
    Stored(VlcDir);
    var entry := Join('\\', VlcDir, "libvlc.dll");
    assert entry == VlcDir + "\\libvlc.dll";
    Stored(entry);
    assert ListFiles(Installed, entry) == None;
    LegacyExtendsFlat(Installed, MeWin.patterns, VlcDir);
  }

  /** The intermediate scan of the empty directory has nothing to visit. */
  lemma IntermediateScanOfJnaDirectory()
    ensures LegacyFind(Installed, MeWin.patterns, JnaDir) == None
  {
    Stored(JnaDir);
    assert ListFiles(Installed, JnaDir) == Some([]);
  }

  /** Neither provider of the machine offers a directory to the intermediate
      Windows rule. */
  lemma IntermediateProvidersMiss()
    ensures LegacyFindIn(Installed, MeWin, Directories(Machine, WinDirs)) == None
    ensures LegacyFindIn(Installed, MeWin, Directories(Machine, JnaPath)) == None
  {
    MachineProviders();
    IntermediateScanOfInstallation();
    IntermediateScanOfJnaDirectory();
    assert [VlcDir][1..] == [] && [JnaDir][1..] == [];
  }

  /** With its own Windows rule the intermediate copy gets no candidate on
      this machine. */
  lemma IntermediateOffersNothing()
    ensures Candidate(Legacy, Start, MeWin, [JnaPath, WinDirs]) == None
  {
    MachineProviders();
    IntermediateProvidersMiss();
    ScanLegacyIsFirstHit(Machine, Installed, MeWin, [WinDirs, JnaPath]);
  }

  /** The JNA provider's only directory holds nothing. */
  lemma JnaDirectoryMisses()
    ensures FirstHit(Installed, OrgWin, [JnaDir]) == None
  {
    FlatScans();
    assert [JnaDir][1..] == [];
  }

  /** The current scan offers nothing: the JNA provider's miss overwrites
      the hit of the provider before it. */
  lemma CurrentPicksNothing()
    ensures Candidate(Current, Start, OrgWin, [JnaPath, WinDirs]) == None
  {
    MachineProviders();
    JnaDirectoryMisses();
    ScanCurrentIsLastNonEmpty(Machine, Installed, OrgWin, [WinDirs, JnaPath], None, None, 1);
  }

  /** So the current discovery answers false on this machine and changes
      nothing, whatever the platform would have answered. */
  lemma CurrentDiscoveryGivesUp(n: Natives)
    ensures Discover(Current, n, Start, [OrgWin, OrgMac], [JnaPath, WinDirs], Initial)
              == Ok(Outcome(false, Initial, Start))
  {
    CurrentPicksNothing();
    NoCandidateNoChange(Current, n, Start, [OrgWin, OrgMac], [JnaPath, WinDirs], Initial);
  }
}
