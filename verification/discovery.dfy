/** `NativeDiscovery.discovery()` in its two shapes. For every supported
    rule, in registration order, a candidate directory is chosen from the
    sorted providers; the rule's `onFound` publishes it and a libVLC
    instance is probed; success commits the rule and directory, failure
    removes libvlc and libvlccore from JNA's tables and moves on to the next
    rule, and a failed removal ends the search.

    The current scan (`DiscoveryEnvironment`) chooses the candidate in a
    loop that does not stop at a provider with a hit: every later provider
    that has directories replaces the candidate with its own first hit,
    or with nothing. The legacy scan (`DiscoveryStrategy`) stops at the
    first provider with a hit. */
module Discovery {
  import opened Wrappers
  import opened Versions
  import opened FileSystem
  import opened Patterns
  import opened Scanner
  import opened Providers
  import opened Native
  import opened Rules

  /** `NativeDiscovery`'s static fields. */
  datatype State = State(discovered: bool, activeRule: Option<Rule>, discoveredPath: Option<string>)

  const Initial: State := State(false, None, None)

  /** The two shapes of the directory scan. */
  datatype Shape = Current | Legacy

  /** The outcome of a discovery call: its boolean, the static fields after
      it, and the world after it. */
  datatype Outcome = Outcome(found: bool, state: State, world: World)

  predicate AllSupported(h: Host, ps: seq<Provider>) {
    forall i :: 0 <= i < |ps| ==> Supported(h, ps[i])
  }

  /** The inner loop over one provider's directories: each is scanned flat
      and the loop breaks at the first hit; without one, the last scan's
      `null` remains. */
  function FirstHit(fs: Fs, r: Rule, dirs: seq<string>): Option<string>
    decreases |dirs|
  {
    if dirs == [] then None
    else
      var hit := FlatFind(fs, r.patterns, dirs[0]);
      if hit.Some? then hit else FirstHit(fs, r, dirs[1..])
  }

  /** The legacy scan of one provider's directories for a rule. */
  function LegacyFindIn(fs: Fs, r: Rule, dirs: seq<string>): Option<string> {
    ProviderFind(fs, r.patterns, dirs)
  }

  /** The current candidate loop: a provider with directories sets the
      candidate to its first hit (or none) and becomes the provider; one
      without directories leaves both alone. */
  function ScanCurrent(h: Host, fs: Fs, r: Rule, ps: seq<Provider>, dir: Option<string>, prov: Option<Provider>)
    : (Option<string>, Option<Provider>)
    requires AllSupported(h, ps)
    decreases |ps|
  {
    if ps == [] then (dir, prov)
    else
      var ds := Directories(h, ps[0]);
      if ds == [] then ScanCurrent(h, fs, r, ps[1..], dir, prov)
      else ScanCurrent(h, fs, r, ps[1..], FirstHit(fs, r, ds), Some(ps[0]))
  }

  /** The legacy candidate loop: the first provider whose scan hits. */
  function ScanLegacy(h: Host, fs: Fs, r: Rule, ps: seq<Provider>): (Option<string>, Option<Provider>)
    requires AllSupported(h, ps)
    decreases |ps|
  {
    if ps == [] then (None, None)
    else
      var hit := LegacyFindIn(fs, r, Directories(h, ps[0]));
      if hit.Some? then (hit, Some(ps[0])) else ScanLegacy(h, fs, r, ps[1..])
  }

  /** The candidate directory a rule gets, with the providers sorted afresh
      as each environment does. Only the host and the file system, with its
      working directory, decide it. */
  function Candidate(shape: Shape, w: World, r: Rule, registered: seq<Provider>): Option<string> {
    var ps := SupportedProviders(w.host, registered);
    SupportedProvidersSpec(w.host, registered);
    match shape
    case Current => ScanCurrent(w.host, w.fs, r, ps, None, None).0
    case Legacy => ScanLegacy(w.host, w.fs, r, ps).0
  }

  /** A probe that passes: an instance reporting a version that parses and
      is at least 3.0.0. */
  predicate ProbePasses(n: Natives, w: World) {
    n.probe(w).Instance? && Parse(n.probe(w).version).Ok? && AtLeast(Parse(n.probe(w).version).value, MinVersion)
  }

  /** The world once JNA has loaded and cached libvlc. */
  function Loaded(w: World): World {
    w.(jna := w.jna.(libraries := w.jna.libraries + {LibvlcName(w.host.os)}))
  }

  /** `testInstance()` / `attemptLoad()`: a linkage error is caught and gives
      `false`; any instance means libvlc was loaded and cached by JNA; the
      version must parse (else the exception escapes) and be at least
      3.0.0. */
  function TestInstance(n: Natives, w: World): Result<(bool, World), Fault> {
    match n.probe(w)
    case LinkError => Ok((false, w))
    case NoInstance => Ok((false, Loaded(w)))
    case Instance(v) =>
      match Parse(v)
      case Err(_) => Err(MalformedVersion)
      case Ok(ver) => Ok((AtLeast(ver, MinVersion), Loaded(w)))
  }

  /** `testCleanup()` / `attemptFix()`: removes both libraries from JNA's
      search paths and cache through reflection; `false` when reflection is
      refused. */
  function Cleanup(n: Natives, w: World): (bool, World) {
    if n.reflectionWorks then
      (true, w.(jna := Forget(w.jna, {LibvlcName(w.host.os), LibvlcCoreName(w.host.os)})))
    else (false, w)
  }

  /** The loop over the supported rules. */
  function TryRules(shape: Shape, n: Natives, w: World, rules: seq<Rule>, registered: seq<Provider>, s: State)
    : Result<Outcome, Fault>
    decreases |rules|
  {
    if rules == [] then Ok(Outcome(false, s, w))
    else if !RuleSupported(w.host, rules[0]) then TryRules(shape, n, w, rules[1..], registered, s)
    else
      var r := rules[0];
      match Candidate(shape, w, r, registered)
      case None => TryRules(shape, n, w, rules[1..], registered, s)
      case Some(dir) =>
        var published :- OnFound(r, n, w, dir);
        var probed :- if published.0 then TestInstance(n, published.1) else Ok((false, published.1));
        if probed.0 then Ok(Outcome(true, State(true, Some(r), Some(dir)), probed.1))
        else
          var cleaned := Cleanup(n, probed.1);
          if cleaned.0 then TryRules(shape, n, cleaned.1, rules[1..], registered, s)
          else Ok(Outcome(false, s, cleaned.1))
  }

  /** `NativeDiscovery.discovery()`. */
  function Discover(shape: Shape, n: Natives, w: World, rules: seq<Rule>, registered: seq<Provider>, s: State)
    : Result<Outcome, Fault>
  {
    if s.discovered then Ok(Outcome(true, s, w)) else TryRules(shape, n, w, rules, registered, s)
  }

  // ---------------------------------------------------------------------
  // Candidate selection

  /** The inner loop answers the first directory the flat scan accepts,
      and nothing when it accepts none. */
  lemma {:induction false} FirstHitSpec(fs: Fs, r: Rule, dirs: seq<string>)
    ensures FirstHit(fs, r, dirs).None? <==>
              forall i :: 0 <= i < |dirs| ==> FlatFind(fs, r.patterns, dirs[i]).None?
    ensures FirstHit(fs, r, dirs).Some? ==>
              exists k :: 0 <= k < |dirs| && FirstHit(fs, r, dirs) == Some(dirs[k])
                && forall j :: 0 <= j < k ==> FlatFind(fs, r.patterns, dirs[j]).None?
    decreases |dirs|
  {
    if dirs != [] {
      FlatFindSpec(fs, r.patterns, dirs[0]);
      if FlatFind(fs, r.patterns, dirs[0]).None? {
        var rest := dirs[1..];
        FirstHitSpec(fs, r, rest);
        if FirstHit(fs, r, rest).Some? {
          var k :| 0 <= k < |rest| && FirstHit(fs, r, rest) == Some(rest[k])
                   && forall j :: 0 <= j < k ==> FlatFind(fs, r.patterns, rest[j]).None?;
          assert dirs[k + 1] == rest[k];
          forall j | 0 <= j < k + 1
            ensures FlatFind(fs, r.patterns, dirs[j]).None?
          {
            if j > 0 {
              assert dirs[j] == rest[j - 1];
            }
          }
        } else {
          forall i | 0 <= i < |dirs|
            ensures FlatFind(fs, r.patterns, dirs[i]).None?
          {
            if i > 0 {
              assert dirs[i] == rest[i - 1];
            }
          }
        }
      }
    }
  }

  /** When no provider has directories the current loop keeps what it was
      given. */
  lemma {:induction false} ScanCurrentAllEmpty(h: Host, fs: Fs, r: Rule, ps: seq<Provider>,
                                               dir: Option<string>, prov: Option<Provider>)
    requires AllSupported(h, ps)
    requires forall i :: 0 <= i < |ps| ==> Directories(h, ps[i]) == []
    ensures ScanCurrent(h, fs, r, ps, dir, prov) == (dir, prov)
    decreases |ps|
  {
    if ps != [] {
      assert Directories(h, ps[0]) == [];
      forall i | 0 <= i < |ps[1..]| ensures Directories(h, ps[1..][i]) == [] {
        assert ps[1..][i] == ps[i + 1];
      }
      ScanCurrentAllEmpty(h, fs, r, ps[1..], dir, prov);
    }
  }

  /** The current loop's candidate, stated without the loop: the first hit
      among the directories of the LAST provider that has any, whatever
      earlier providers found. */
  lemma {:induction false} ScanCurrentIsLastNonEmpty(h: Host, fs: Fs, r: Rule, ps: seq<Provider>,
                                                     dir: Option<string>, prov: Option<Provider>, k: nat)
    requires AllSupported(h, ps)
    requires k < |ps| && Directories(h, ps[k]) != []
    requires forall j :: k < j < |ps| ==> Directories(h, ps[j]) == []
    ensures ScanCurrent(h, fs, r, ps, dir, prov) == (FirstHit(fs, r, Directories(h, ps[k])), Some(ps[k]))
    decreases |ps|
  {
    var rest := ps[1..];
    forall j | k < j + 1 < |ps| && 0 <= j < |rest| ensures Directories(h, rest[j]) == [] {
      assert rest[j] == ps[j + 1];
    }
    var ds := Directories(h, ps[0]);
    if k == 0 {
      ScanCurrentAllEmpty(h, fs, r, rest, FirstHit(fs, r, ds), Some(ps[0]));
    } else {
      assert rest[k - 1] == ps[k];
      var dir' := if ds == [] then dir else FirstHit(fs, r, ds);
      var prov' := if ds == [] then prov else Some(ps[0]);
      ScanCurrentIsLastNonEmpty(h, fs, r, rest, dir', prov', k - 1);
    }
  }

  /** The legacy loop's candidate: the hit of the first provider that has
      one, and none when no provider does. */
  lemma {:induction false} ScanLegacyIsFirstHit(h: Host, fs: Fs, r: Rule, ps: seq<Provider>)
    requires AllSupported(h, ps)
    ensures ScanLegacy(h, fs, r, ps).0.None? <==>
              forall i :: 0 <= i < |ps| ==> LegacyFindIn(fs, r, Directories(h, ps[i])).None?
    ensures ScanLegacy(h, fs, r, ps).0.Some? ==>
              exists k :: 0 <= k < |ps|
                && ScanLegacy(h, fs, r, ps) == (LegacyFindIn(fs, r, Directories(h, ps[k])), Some(ps[k]))
                && forall j :: 0 <= j < k ==> LegacyFindIn(fs, r, Directories(h, ps[j])).None?
    decreases |ps|
  {
    if ps != [] && LegacyFindIn(fs, r, Directories(h, ps[0])).None? {
      var rest := ps[1..];
      ScanLegacyIsFirstHit(h, fs, r, rest);
      if ScanLegacy(h, fs, r, rest).0.Some? {
        var k :| 0 <= k < |rest|
                 && ScanLegacy(h, fs, r, rest) == (LegacyFindIn(fs, r, Directories(h, rest[k])), Some(rest[k]))
                 && forall j :: 0 <= j < k ==> LegacyFindIn(fs, r, Directories(h, rest[j])).None?;
        assert ps[k + 1] == rest[k];
        forall j | 0 <= j < k + 1
          ensures LegacyFindIn(fs, r, Directories(h, ps[j])).None?
        {
          if j > 0 {
            assert ps[j] == rest[j - 1];
          }
        }
      } else {
        forall i | 0 <= i < |ps|
          ensures LegacyFindIn(fs, r, Directories(h, ps[i])).None?
        {
          if i > 0 {
            assert ps[i] == rest[i - 1];
          }
        }
      }
    }
  }

  // ---------------------------------------------------------------------
  // The probe and the clean-up

  /** The probe succeeds exactly when an instance reports a version that
      parses and is at least 3.0.0; a version that does not parse escapes as
      an exception; a linkage error leaves JNA's cache alone. */
  lemma TestInstanceSpec(n: Natives, w: World)
    ensures TestInstance(n, w).Err? <==> n.probe(w).Instance? && Parse(n.probe(w).version).Err?
    ensures TestInstance(n, w).Ok? && TestInstance(n, w).value.0 <==>
              n.probe(w).Instance? && Parse(n.probe(w).version).Ok?
              && AtLeast(Parse(n.probe(w).version).value, MinVersion)
    ensures TestInstance(n, w).Ok? && TestInstance(n, w).value.0 ==> TestInstance(n, w).value.1 == Loaded(w)
    ensures n.probe(w) == LinkError ==> TestInstance(n, w) == Ok((false, w))
    ensures TestInstance(n, w).Ok? ==>
              var w' := TestInstance(n, w).value.1;
              w' == w.(jna := w'.jna) && w'.jna.searchPaths == w.jna.searchPaths
  {
  }

  /** An instance reporting a plain `major.minor.revision` passes the probe
      exactly when its major number is at least 3. */
  lemma VersionGate(n: Natives, w: World, major: nat, minor: nat, revision: nat)
    requires major <= IntMax && minor <= IntMax && revision <= IntMax
    requires n.probe(w) == Instance(Numbers(major, minor, revision))
    ensures TestInstance(n, w).Ok?
    ensures TestInstance(n, w).value.0 <==> major >= 3
  {
    ParseNumbers(major, minor, revision);
  }

  /** A failed clean-up changes nothing; a successful one forgets exactly the
      two libraries. */
  lemma CleanupSpec(n: Natives, w: World)
    ensures !Cleanup(n, w).0 ==> Cleanup(n, w).1 == w
    ensures Cleanup(n, w).0 ==>
              var j := Cleanup(n, w).1.jna;
              SearchPathsOf(j, LibvlcName(w.host.os)) == [] && SearchPathsOf(j, LibvlcCoreName(w.host.os)) == []
              && LibvlcName(w.host.os) !in j.libraries && LibvlcCoreName(w.host.os) !in j.libraries
  {
    ForgetSpec(w.jna, {LibvlcName(w.host.os), LibvlcCoreName(w.host.os)});
  }

  // ---------------------------------------------------------------------
  // The discovery loop

  /** A successful discovery is remembered: every later call answers true
      and changes nothing. */
  lemma DiscoverIdempotent(shape: Shape, n: Natives, w: World, rules: seq<Rule>, registered: seq<Provider>, s: State,
                           n': Natives, w': World, rules': seq<Rule>, registered': seq<Provider>)
    requires Discover(shape, n, w, rules, registered, s).Ok? && Discover(shape, n, w, rules, registered, s).value.found
    ensures var s' := Discover(shape, n, w, rules, registered, s).value.state;
            s'.discovered && Discover(shape, n', w', rules', registered', s') == Ok(Outcome(true, s', w'))
  {
    if !s.discovered {
      TryRulesCommits(shape, n, w, rules, registered, s);
    }
  }

  /** What a run of the rule loop can leave behind: the host, the file
      system and the properties are never changed; a `false` leaves the
      static fields untouched; a `true` commits a supported rule of the list
      together with that rule's candidate directory, and only after a probe
      passed: the world left behind is the one the passing probe saw, with
      libvlc loaded. */
  lemma {:induction false} TryRulesCommits(shape: Shape, n: Natives, w: World, rules: seq<Rule>,
                                           registered: seq<Provider>, s: State)
    requires !s.discovered
    ensures TryRules(shape, n, w, rules, registered, s).Ok? ==>
              var o := TryRules(shape, n, w, rules, registered, s).value;
              o.world.host == w.host && o.world.fs == w.fs && o.world.props == w.props
              && (o.found <==> o.state.discovered)
              && (!o.found ==> o.state == s)
              && (o.found ==> exists i :: 0 <= i < |rules| && RuleSupported(w.host, rules[i])
                                && o.state == State(true, Some(rules[i]), Candidate(shape, w, rules[i], registered)))
              && (o.found ==> exists wp :: ProbePasses(n, wp) && o.world == Loaded(wp))
    decreases |rules|, 1
  {
    if rules != [] {
      if !RuleSupported(w.host, rules[0]) || Candidate(shape, w, rules[0], registered).None? {
        TryRulesCommits(shape, n, w, rules[1..], registered, s);
        LeavesTail(shape, n, w, rules, registered, s, TryRules(shape, n, w, rules[1..], registered, s));
      } else {
        AttemptCommits(shape, n, w, rules, registered, s);
      }
    }
  }

  /** The promise of `TryRulesCommits`, for one outcome. */
  ghost predicate Leaves(shape: Shape, n: Natives, w: World, rules: seq<Rule>, registered: seq<Provider>, s: State,
                         r: Result<Outcome, Fault>)
  {
    r.Ok? ==>
      var o := r.value;
      o.world.host == w.host && o.world.fs == w.fs && o.world.props == w.props
      && (o.found <==> o.state.discovered)
      && (!o.found ==> o.state == s)
      && (o.found ==> exists i :: 0 <= i < |rules| && RuleSupported(w.host, rules[i])
                        && o.state == State(true, Some(rules[i]), Candidate(shape, w, rules[i], registered)))
      && (o.found ==> exists wp :: ProbePasses(n, wp) && o.world == Loaded(wp))
  }

  /** What holds for the rules after the first holds for all of them. */
  lemma LeavesTail(shape: Shape, n: Natives, w: World, rules: seq<Rule>, registered: seq<Provider>, s: State,
                   r: Result<Outcome, Fault>)
    requires rules != [] && Leaves(shape, n, w, rules[1..], registered, s, r)
    ensures Leaves(shape, n, w, rules, registered, s, r)
  {
    if r.Ok? && r.value.found {
      var i :| 0 <= i < |rules[1..]| && RuleSupported(w.host, rules[1..][i])
               && r.value.state == State(true, Some(rules[1..][i]), Candidate(shape, w, rules[1..][i], registered));
      assert rules[i + 1] == rules[1..][i];
    }
  }

  /** The step of `TryRulesCommits` for a first rule that gets a candidate. */
  lemma {:induction false} AttemptCommits(shape: Shape, n: Natives, w: World, rules: seq<Rule>,
                                          registered: seq<Provider>, s: State)
    requires !s.discovered && rules != [] && RuleSupported(w.host, rules[0])
    requires Candidate(shape, w, rules[0], registered).Some?
    ensures Leaves(shape, n, w, rules, registered, s, TryRules(shape, n, w, rules, registered, s))
    decreases |rules|, 0
  {
    var r := rules[0];
    var dir := Candidate(shape, w, r, registered).value;
    if OnFound(r, n, w, dir).Ok? {
      var published := OnFound(r, n, w, dir).value;
      OnFoundFrame(r, n, w, dir);
      var t := if published.0 then TestInstance(n, published.1) else Ok((false, published.1));
      if t.Ok? {
        if t.value.0 {
          TestInstanceSpec(n, published.1);
          assert ProbePasses(n, published.1) && t.value.1 == Loaded(published.1);
          assert TryRules(shape, n, w, rules, registered, s) == Ok(Outcome(true, State(true, Some(r), Some(dir)), t.value.1));
        } else {
          TestInstanceSpec(n, published.1);
          var cleaned := Cleanup(n, t.value.1);
          if cleaned.0 {
            var w1 := cleaned.1;
            assert w1.host == w.host && w1.fs == w.fs && w1.props == w.props;
            TryRulesCommits(shape, n, w1, rules[1..], registered, s);
            CandidateFrame(shape, w, w1, rules[1..], registered);
            LeavesTail(shape, n, w, rules, registered, s, TryRules(shape, n, w1, rules[1..], registered, s));
          }
        }
      }
    }
  }

  /** The candidate of each rule depends only on the host and the file system. */
  lemma CandidateFrame(shape: Shape, w: World, w1: World, rules: seq<Rule>, registered: seq<Provider>)
    requires w1.host == w.host && w1.fs == w.fs
    ensures forall i :: 0 <= i < |rules| ==> Candidate(shape, w1, rules[i], registered) == Candidate(shape, w, rules[i], registered)
  {
  }

  /** The order the loop works in: a rule that is unsupported or gets no
      candidate is passed over without any effect; an exception from
      `onFound` or from the probe leaves discovery; the first attempt that
      publishes its directory and passes the probe commits; an attempt that
      fails to publish, or publishes and fails the probe, cleans up and hands
      the cleaned world to the next rule, or, when the clean-up is refused,
      ends discovery with `false` and the static fields as they were. */
  lemma TryRulesOrder(shape: Shape, n: Natives, w: World, rules: seq<Rule>, registered: seq<Provider>, s: State)
    requires rules != []
    ensures !RuleSupported(w.host, rules[0]) || Candidate(shape, w, rules[0], registered).None? ==>
              TryRules(shape, n, w, rules, registered, s) == TryRules(shape, n, w, rules[1..], registered, s)
    ensures RuleSupported(w.host, rules[0]) && Candidate(shape, w, rules[0], registered).Some? ==>
              var dir := Candidate(shape, w, rules[0], registered).value;
              var o := OnFound(rules[0], n, w, dir);
              (o.Err? ==> TryRules(shape, n, w, rules, registered, s) == Err(o.error))
              && (o.Ok? && o.value.0 && TestInstance(n, o.value.1).Err? ==>
                    TryRules(shape, n, w, rules, registered, s) == Err(TestInstance(n, o.value.1).error))
              && (o.Ok? && o.value.0 && TestInstance(n, o.value.1).Ok? && TestInstance(n, o.value.1).value.0 ==>
                    TryRules(shape, n, w, rules, registered, s)
                      == Ok(Outcome(true, State(true, Some(rules[0]), Some(dir)), TestInstance(n, o.value.1).value.1)))
              && (o.Ok? && o.value.0 && TestInstance(n, o.value.1).Ok? && !TestInstance(n, o.value.1).value.0 ==>
                    var w1 := TestInstance(n, o.value.1).value.1;
                    TryRules(shape, n, w, rules, registered, s)
                      == if n.reflectionWorks then TryRules(shape, n, Cleanup(n, w1).1, rules[1..], registered, s)
                         else Ok(Outcome(false, s, w1)))
              && (o.Ok? && !o.value.0 ==>
                    TryRules(shape, n, w, rules, registered, s)
                      == if n.reflectionWorks then TryRules(shape, n, Cleanup(n, o.value.1).1, rules[1..], registered, s)
                         else Ok(Outcome(false, s, o.value.1)))
  {
  }

  /** `onFound` changes neither the host, the file system (with its working
      directory) nor the properties. */
  lemma OnFoundFrame(r: Rule, n: Natives, w: World, path: string)
    requires OnFound(r, n, w, path).Ok?
    ensures var w' := OnFound(r, n, w, path).value.1;
            w'.host == w.host && w'.fs == w.fs && w'.props == w.props
  {
  }

  /** When no supported rule gets a candidate, discovery answers false and
      changes nothing at all. */
  lemma {:induction false} NoCandidateNoChange(shape: Shape, n: Natives, w: World, rules: seq<Rule>,
                                               registered: seq<Provider>, s: State)
    requires forall i :: 0 <= i < |rules| && RuleSupported(w.host, rules[i]) ==>
               Candidate(shape, w, rules[i], registered).None?
    ensures TryRules(shape, n, w, rules, registered, s) == Ok(Outcome(false, s, w))
    decreases |rules|
  {
    if rules != [] {
      forall i | 0 <= i < |rules[1..]| && RuleSupported(w.host, rules[1..][i])
        ensures Candidate(shape, w, rules[1..][i], registered).None?
      {
        assert rules[1..][i] == rules[i + 1];
      }
      NoCandidateNoChange(shape, n, w, rules[1..], registered, s);
    }
  }

  /** When the clean-up after a failed attempt is refused, discovery gives up
      with `false` at once, leaving the static fields as they were and
      whatever the failed attempt published in the process environment and
      loaded into JNA. The attempt failed either because `onFound` reported
      failure or because the probe did not pass. */
  lemma CleanupRefusedStops(shape: Shape, n: Natives, w: World, rules: seq<Rule>, registered: seq<Provider>, s: State)
    requires !n.reflectionWorks && rules != [] && RuleSupported(w.host, rules[0])
    requires Candidate(shape, w, rules[0], registered).Some?
    requires var o := OnFound(rules[0], n, w, Candidate(shape, w, rules[0], registered).value);
             o.Ok? && (!o.value.0 || (TestInstance(n, o.value.1).Ok? && !TestInstance(n, o.value.1).value.0))
    ensures var o := OnFound(rules[0], n, w, Candidate(shape, w, rules[0], registered).value).value;
            TryRules(shape, n, w, rules, registered, s)
              == Ok(Outcome(false, s, if o.0 then TestInstance(n, o.1).value.1 else o.1))
  {
  }

  /** A probe whose version string does not parse is not caught: the
      exception leaves discovery. */
  lemma MalformedVersionEscapes(shape: Shape, n: Natives, w: World, rules: seq<Rule>, registered: seq<Provider>, s: State)
    requires rules != [] && RuleSupported(w.host, rules[0])
    requires Candidate(shape, w, rules[0], registered).Some?
    requires var o := OnFound(rules[0], n, w, Candidate(shape, w, rules[0], registered).value);
             o.Ok? && o.value.0 && n.probe(o.value.1).Instance? && Parse(n.probe(o.value.1).version).Err?
    ensures TryRules(shape, n, w, rules, registered, s) == Err(MalformedVersion)
  {
  }
}
