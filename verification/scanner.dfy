/** The directory scan: does a directory hold a file for every pattern of a
    platform rule? Two versions exist. `FlatFind` is the scan of the
    current environments: only the directory's own non-directory entries
    count. `LegacyFind` is the older provider scan, which, when the flat
    pass fails, descends one level into small subdirectories and returns the
    absolute path of the subdirectory where the last missing pattern
    turned up. */
module Scanner {
  import opened Wrappers
  import opened FileSystem
  import opened Patterns

  /** A subdirectory with more entries than this is skipped by the fallback. */
  const MaxSubdirectoryEntries: nat := 16

  /** What feeding names to the matcher leads to: the matched set reached the
      number of patterns (the scan returns at once), or the sources matched
      so far. */
  datatype Step = Complete | Partial(matched: set<string>)

  /** The sources of all patterns of a list. */
  function Sources(ps: seq<Pattern>): set<string>
    decreases |ps|
  {
    if ps == [] then {} else {Source(ps[0])} + Sources(ps[1..])
  }

  /** The sources of the patterns of a list that match one name. */
  function Hits(ps: seq<Pattern>, name: string): set<string>
    decreases |ps|
  {
    if ps == [] then {}
    else (if Matches(ps[0], name) then {Source(ps[0])} else {}) + Hits(ps[1..], name)
  }

  /** Whether an entry takes part in a pass: the flat pass skips entries that
      are directories (`child.isDirectory()`), the fallback pass does not. */
  predicate Eligible(fs: Fs, root: string, skipDirs: bool, e: string) {
    !skipDirs || !IsDirectory(fs, Join(fs.sep, root, e))
  }

  /** The sources matched by the eligible entries of a listing. */
  function EntryHits(fs: Fs, root: string, skipDirs: bool, es: seq<string>, ps: seq<Pattern>): set<string>
    decreases |es|
  {
    if es == [] then {}
    else (if Eligible(fs, root, skipDirs, es[0]) then Hits(ps, es[0]) else {})
         + EntryHits(fs, root, skipDirs, es[1..], ps)
  }

  /** The inner loop over the patterns for one name: each match adds the
      pattern's source to the set, and right after an addition the set's
      size is compared with `total` (`patterns.length`). */
  function MatchName(ps: seq<Pattern>, total: nat, name: string, matched: set<string>): Step
    decreases |ps|
  {
    if ps == [] then Partial(matched)
    else if Matches(ps[0], name) then
      var m := matched + {Source(ps[0])};
      if |m| == total then Complete else MatchName(ps[1..], total, name, m)
    else MatchName(ps[1..], total, name, matched)
  }

  /** The outer loop over a directory listing. */
  function Absorb(fs: Fs, root: string, skipDirs: bool, es: seq<string>,
                  ps: seq<Pattern>, matched: set<string>): Step
    decreases |es|
  {
    if es == [] then Partial(matched)
    else if !Eligible(fs, root, skipDirs, es[0]) then Absorb(fs, root, skipDirs, es[1..], ps, matched)
    else match MatchName(ps, |ps|, es[0], matched)
      case Complete => Complete
      case Partial(m) => Absorb(fs, root, skipDirs, es[1..], ps, m)
  }

  /** `DiscoveryEnvironment.find(directory)`: the directory string itself when
      its (link-fixed) listing holds a non-directory match for every
      pattern, `None` (Java's `null`) otherwise, including when the
      directory cannot be listed. */
  function FlatFind(fs: Fs, ps: seq<Pattern>, directory: string): Option<string> {
    var root := FixedFile(fs, directory);
    match ListFiles(fs, root)
    case None => None
    case Some(es) =>
      if Absorb(fs, root, true, es, ps, {}) == Complete then Some(directory) else None
  }

  /** The fallback pass over the root's entries; `matched` is shared by all
      subdirectories. An entry that cannot be listed, plain files included,
      ends the whole search with `None`. */
  function Descend(fs: Fs, ps: seq<Pattern>, root: string,
                   es: seq<string>, matched: set<string>): Option<string>
    decreases |es|
  {
    if es == [] then None
    else
      var sub := FixedFile(fs, Join(fs.sep, root, es[0]));
      match ListFiles(fs, sub)
      case None => None
      case Some(children) =>
        if |children| > MaxSubdirectoryEntries then Descend(fs, ps, root, es[1..], matched)
        else match Absorb(fs, sub, false, children, ps, matched)
          case Complete => Some(AbsolutePath(fs, sub))
          case Partial(m) => Descend(fs, ps, root, es[1..], m)
  }

  /** `DiscoveryPathProvider.find(strategy, directory)`: the flat pass, then,
      with the matched set cleared, the fallback pass. */
  function LegacyFind(fs: Fs, ps: seq<Pattern>, directory: string): Option<string> {
    var root := FixedFile(fs, directory);
    match ListFiles(fs, root)
    case None => None
    case Some(es) =>
      if Absorb(fs, root, true, es, ps, {}) == Complete then Some(directory)
      else Descend(fs, ps, root, es, {})
  }

  /** The first non-`None` answer of `f` over `dirs`, in order. */
  function FirstSome(dirs: seq<string>, f: string -> Option<string>): Option<string>
    decreases |dirs|
  {
    if dirs == [] then None
    else if f(dirs[0]).Some? then f(dirs[0])
    else FirstSome(dirs[1..], f)
  }

  /** `DiscoveryPathProvider.find(strategy)`: the legacy scan of each of the
      provider's directories, first hit wins. */
  function ProviderFind(fs: Fs, ps: seq<Pattern>, dirs: seq<string>): Option<string> {
    FirstSome(dirs, d => LegacyFind(fs, ps, d))
  }

  /** Every pattern is matched by some eligible entry. */
  ghost predicate Covered(fs: Fs, root: string, skipDirs: bool, es: seq<string>, ps: seq<Pattern>) {
    forall i :: 0 <= i < |ps| ==>
      exists e :: e in es && Eligible(fs, root, skipDirs, e) && Matches(ps[i], e)
  }

  // ---------------------------------------------------------------------
  // Sets of sources

  lemma SubsetCard(a: set<string>, b: set<string>)
    requires a <= b
    ensures |a| <= |b|
    ensures |a| == |b| ==> a == b
  {
    assert b == a + (b - a);
    if |a| == |b| {
      assert |b - a| == 0;
    }
  }

  lemma {:induction false} SourcesMember(ps: seq<Pattern>, src: string)
    ensures src in Sources(ps) <==> exists i :: 0 <= i < |ps| && Source(ps[i]) == src
    decreases |ps|
  {
    if ps != [] {
      SourcesMember(ps[1..], src);
      if exists i :: 0 <= i < |ps| && Source(ps[i]) == src {
        var i :| 0 <= i < |ps| && Source(ps[i]) == src;
        if i > 0 {
          assert Source(ps[1..][i - 1]) == src;
        }
      }
      if exists i :: 0 <= i < |ps[1..]| && Source(ps[1..][i]) == src {
        var i :| 0 <= i < |ps[1..]| && Source(ps[1..][i]) == src;
        assert Source(ps[i + 1]) == src;
      }
    }
  }

  /** A list has as many sources as patterns exactly when no two patterns
      share a source; otherwise it has fewer. */
  lemma {:induction false} SourcesCard(ps: seq<Pattern>)
    ensures |Sources(ps)| <= |ps|
    ensures |Sources(ps)| == |ps| <==> DistinctSources(ps)
    decreases |ps|
  {
    if ps != [] {
      var rest := ps[1..];
      SourcesCard(rest);
      SourcesMember(rest, Source(ps[0]));
      if Source(ps[0]) in Sources(rest) {
        var i :| 0 <= i < |rest| && Source(rest[i]) == Source(ps[0]);
        assert Source(ps[0]) == Source(ps[i + 1]);
        assert !DistinctSources(ps);
      } else {
        assert |Sources(ps)| == 1 + |Sources(rest)|;
        if DistinctSources(ps) {
          assert DistinctSources(rest) by {
            forall i, j | 0 <= i < j < |rest|
              ensures Source(rest[i]) != Source(rest[j])
            {
              assert rest[i] == ps[i + 1] && rest[j] == ps[j + 1];
            }
          }
        }
        if DistinctSources(rest) {
          forall i, j | 0 <= i < j < |ps|
            ensures Source(ps[i]) != Source(ps[j])
          {
            if i == 0 {
              assert Source(rest[j - 1]) == Source(ps[j]);
            } else {
              assert rest[i - 1] == ps[i] && rest[j - 1] == ps[j];
            }
          }
        }
      }
    }
  }

  lemma {:induction false} HitsMember(ps: seq<Pattern>, name: string, src: string)
    ensures src in Hits(ps, name) <==> exists i :: 0 <= i < |ps| && Matches(ps[i], name) && Source(ps[i]) == src
    decreases |ps|
  {
    if ps != [] {
      HitsMember(ps[1..], name, src);
      if exists i :: 0 <= i < |ps| && Matches(ps[i], name) && Source(ps[i]) == src {
        var i :| 0 <= i < |ps| && Matches(ps[i], name) && Source(ps[i]) == src;
        if i > 0 {
          assert ps[1..][i - 1] == ps[i];
        }
      }
      if exists i :: 0 <= i < |ps[1..]| && Matches(ps[1..][i], name) && Source(ps[1..][i]) == src {
        var i :| 0 <= i < |ps[1..]| && Matches(ps[1..][i], name) && Source(ps[1..][i]) == src;
        assert ps[i + 1] == ps[1..][i];
      }
    }
  }

  lemma {:induction false} HitsInSources(ps: seq<Pattern>, name: string)
    ensures Hits(ps, name) <= Sources(ps)
    decreases |ps|
  {
    if ps != [] {
      HitsInSources(ps[1..], name);
    }
  }

  lemma {:induction false} EntryHitsInSources(fs: Fs, root: string, skipDirs: bool, es: seq<string>, ps: seq<Pattern>)
    ensures EntryHits(fs, root, skipDirs, es, ps) <= Sources(ps)
    decreases |es|
  {
    if es != [] {
      HitsInSources(ps, es[0]);
      EntryHitsInSources(fs, root, skipDirs, es[1..], ps);
    }
  }

  /** A pattern matched by an eligible entry has its source among the hits. */
  lemma {:induction false} EntryHitsHave(fs: Fs, root: string, skipDirs: bool, es: seq<string>,
                                         ps: seq<Pattern>, e: string, i: nat)
    requires e in es && Eligible(fs, root, skipDirs, e) && i < |ps| && Matches(ps[i], e)
    ensures Source(ps[i]) in EntryHits(fs, root, skipDirs, es, ps)
    decreases |es|
  {
    if es[0] == e {
      HitsMember(ps, e, Source(ps[i]));
    } else {
      EntryHitsHave(fs, root, skipDirs, es[1..], ps, e, i);
    }
  }

  /** Conversely, every hit comes from an eligible entry and a pattern. */
  lemma {:induction false} EntryHitsFrom(fs: Fs, root: string, skipDirs: bool, es: seq<string>,
                                         ps: seq<Pattern>, src: string)
    requires src in EntryHits(fs, root, skipDirs, es, ps)
    ensures exists e, i :: e in es && Eligible(fs, root, skipDirs, e) && 0 <= i < |ps|
                           && Matches(ps[i], e) && Source(ps[i]) == src
    decreases |es|
  {
    if Eligible(fs, root, skipDirs, es[0]) && src in Hits(ps, es[0]) {
      HitsMember(ps, es[0], src);
      var i :| 0 <= i < |ps| && Matches(ps[i], es[0]) && Source(ps[i]) == src;
      assert es[0] in es;
    } else {
      EntryHitsFrom(fs, root, skipDirs, es[1..], ps, src);
      var e, i :| e in es[1..] && Eligible(fs, root, skipDirs, e) && 0 <= i < |ps|
                  && Matches(ps[i], e) && Source(ps[i]) == src;
      assert e in es;
    }
  }

  // ---------------------------------------------------------------------
  // The loops

  /** The inner loop adds this name's hits and reports completion exactly
      when the set reaches `total`, provided the set starts below `total` and
      cannot outgrow it. */
  lemma {:induction false} MatchNameSpec(ps: seq<Pattern>, total: nat, name: string, matched: set<string>, all: set<string>)
    requires Sources(ps) <= all && matched <= all && |all| <= total && |matched| < total
    ensures (MatchName(ps, total, name, matched) == Complete) <==> |matched + Hits(ps, name)| == total
    ensures MatchName(ps, total, name, matched).Partial? ==>
              MatchName(ps, total, name, matched).matched == matched + Hits(ps, name)
              && |matched + Hits(ps, name)| < total
    decreases |ps|
  {
    if ps != [] {
      var rest := ps[1..];
      assert Sources(rest) <= all;
      SubsetCard(matched + Hits(ps, name), all) by {
        HitsInSources(ps, name);
      }
      if Matches(ps[0], name) {
        var m := matched + {Source(ps[0])};
        assert matched + Hits(ps, name) == m + Hits(rest, name);
        SubsetCard(m, all);
        if |m| != total {
          MatchNameSpec(rest, total, name, m, all);
        } else {
          SubsetCard(m, matched + Hits(ps, name));
        }
      } else {
        assert Hits(ps, name) == Hits(rest, name);
        MatchNameSpec(rest, total, name, matched, all);
      }
    }
  }

  /** The outer loop does the same over a whole listing. */
  lemma {:induction false} AbsorbSpec(fs: Fs, root: string, skipDirs: bool, es: seq<string>,
                                      ps: seq<Pattern>, matched: set<string>)
    requires matched <= Sources(ps) && |matched| < |ps|
    ensures (Absorb(fs, root, skipDirs, es, ps, matched) == Complete)
              <==> |matched + EntryHits(fs, root, skipDirs, es, ps)| == |ps|
    ensures Absorb(fs, root, skipDirs, es, ps, matched).Partial? ==>
              Absorb(fs, root, skipDirs, es, ps, matched).matched == matched + EntryHits(fs, root, skipDirs, es, ps)
              && |matched + EntryHits(fs, root, skipDirs, es, ps)| < |ps|
    decreases |es|
  {
    var all := matched + EntryHits(fs, root, skipDirs, es, ps);
    SourcesCard(ps);
    EntryHitsInSources(fs, root, skipDirs, es, ps);
    SubsetCard(all, Sources(ps));
    if es != [] {
      var rest := es[1..];
      if !Eligible(fs, root, skipDirs, es[0]) {
        assert all == matched + EntryHits(fs, root, skipDirs, rest, ps);
        AbsorbSpec(fs, root, skipDirs, rest, ps, matched);
      } else {
        AbsorbEligible(fs, root, skipDirs, es, ps, matched);
      }
    }
  }

  /** The step of `AbsorbSpec` for an entry that takes part in the pass. */
  lemma {:induction false} AbsorbEligible(fs: Fs, root: string, skipDirs: bool, es: seq<string>,
                                          ps: seq<Pattern>, matched: set<string>)
    requires matched <= Sources(ps) && |matched| < |ps|
    requires es != [] && Eligible(fs, root, skipDirs, es[0])
    ensures (Absorb(fs, root, skipDirs, es, ps, matched) == Complete)
              <==> |matched + EntryHits(fs, root, skipDirs, es, ps)| == |ps|
    ensures Absorb(fs, root, skipDirs, es, ps, matched).Partial? ==>
              Absorb(fs, root, skipDirs, es, ps, matched).matched == matched + EntryHits(fs, root, skipDirs, es, ps)
              && |matched + EntryHits(fs, root, skipDirs, es, ps)| < |ps|
    decreases |es|, 0
  {
    var rest := es[1..];
    var here := Hits(ps, es[0]);
    var all := matched + EntryHits(fs, root, skipDirs, es, ps);
    assert all == (matched + here) + EntryHits(fs, root, skipDirs, rest, ps);
    SourcesCard(ps);
    EntryHitsInSources(fs, root, skipDirs, es, ps);
    SubsetCard(all, Sources(ps));
    MatchNameSpec(ps, |ps|, es[0], matched, Sources(ps));
    match MatchName(ps, |ps|, es[0], matched)
    case Complete =>
      SubsetCard(matched + here, all);
    case Partial(m) =>
      HitsInSources(ps, es[0]);
      AbsorbSpec(fs, root, skipDirs, rest, ps, m);
  }

  /** With no patterns nothing is ever complete: the size check only runs
      after an addition. */
  lemma {:induction false} AbsorbNoPatterns(fs: Fs, root: string, skipDirs: bool, es: seq<string>, matched: set<string>)
    ensures Absorb(fs, root, skipDirs, es, [], matched) == Partial(matched)
    decreases |es|
  {
    if es != [] {
      AbsorbNoPatterns(fs, root, skipDirs, es[1..], matched);
    }
  }

  /** A fresh pass over a listing completes exactly when there is at least one
      pattern, no two patterns share a source, and every pattern is matched
      by some eligible entry. */
  lemma AbsorbCompleteIff(fs: Fs, root: string, skipDirs: bool, es: seq<string>, ps: seq<Pattern>)
    ensures (Absorb(fs, root, skipDirs, es, ps, {}) == Complete)
              <==> |ps| > 0 && DistinctSources(ps) && Covered(fs, root, skipDirs, es, ps)
  {
    if ps == [] {
      AbsorbNoPatterns(fs, root, skipDirs, es, {});
      return;
    }
    var hits := EntryHits(fs, root, skipDirs, es, ps);
    AbsorbSpec(fs, root, skipDirs, es, ps, {});
    assert {} + hits == hits;
    SourcesCard(ps);
    EntryHitsInSources(fs, root, skipDirs, es, ps);
    SubsetCard(hits, Sources(ps));
    if |hits| == |ps| {
      assert hits == Sources(ps);
      forall i | 0 <= i < |ps|
        ensures exists e :: e in es && Eligible(fs, root, skipDirs, e) && Matches(ps[i], e)
      {
        SourcesMember(ps, Source(ps[i]));
        EntryHitsFrom(fs, root, skipDirs, es, ps, Source(ps[i]));
        var e, j :| e in es && Eligible(fs, root, skipDirs, e) && 0 <= j < |ps|
                    && Matches(ps[j], e) && Source(ps[j]) == Source(ps[i]);
        assert j == i;
      }
    }
    if DistinctSources(ps) && Covered(fs, root, skipDirs, es, ps) {
      forall src | src in Sources(ps)
        ensures src in hits
      {
        SourcesMember(ps, src);
        var i :| 0 <= i < |ps| && Source(ps[i]) == src;
        var e :| e in es && Eligible(fs, root, skipDirs, e) && Matches(ps[i], e);
        EntryHitsHave(fs, root, skipDirs, es, ps, e, i);
      }
      assert hits == Sources(ps);
    }
  }

  // ---------------------------------------------------------------------
  // The scans

  /** The flat scan answers the directory string or nothing, and it answers
      the directory exactly when the link-fixed directory can be listed and
      every pattern (there being at least one, all with distinct sources)
      is matched by a non-directory entry of that listing. */
  lemma FlatFindSpec(fs: Fs, ps: seq<Pattern>, directory: string)
    ensures FlatFind(fs, ps, directory) == None || FlatFind(fs, ps, directory) == Some(directory)
    ensures FlatFind(fs, ps, directory) == Some(directory) <==>
              var root := FixedFile(fs, directory);
              ListFiles(fs, root).Some? && |ps| > 0 && DistinctSources(ps)
              && Covered(fs, root, true, ListFiles(fs, root).value, ps)
  {
    var root := FixedFile(fs, directory);
    if ListFiles(fs, root).Some? {
      AbsorbCompleteIff(fs, root, true, ListFiles(fs, root).value, ps);
    }
  }

  /** The order of the listing does not matter to the flat scan: two listings
      with the same entries give the same answer. */
  lemma FlatOrderIrrelevant(fs: Fs, root: string, es1: seq<string>, es2: seq<string>, ps: seq<Pattern>)
    requires forall e :: e in es1 <==> e in es2
    ensures (Absorb(fs, root, true, es1, ps, {}) == Complete) == (Absorb(fs, root, true, es2, ps, {}) == Complete)
  {
    AbsorbCompleteIff(fs, root, true, es1, ps);
    AbsorbCompleteIff(fs, root, true, es2, ps);
  }

  /** The legacy scan answers whatever the flat scan answers when that one
      succeeds or cannot list the directory; otherwise it is the fallback. */
  lemma LegacyExtendsFlat(fs: Fs, ps: seq<Pattern>, directory: string)
    ensures FlatFind(fs, ps, directory).Some? ==>
              LegacyFind(fs, ps, directory) == FlatFind(fs, ps, directory)
    ensures ListFiles(fs, FixedFile(fs, directory)).None? ==> LegacyFind(fs, ps, directory).None?
    ensures FlatFind(fs, ps, directory).None? && ListFiles(fs, FixedFile(fs, directory)).Some? ==>
              LegacyFind(fs, ps, directory)
                == Descend(fs, ps, FixedFile(fs, directory), ListFiles(fs, FixedFile(fs, directory)).value, {})
  {
  }

  /** The fixed path the fallback visits for a root entry. */
  function EntryPath(fs: Fs, root: string, e: string): string {
    FixedFile(fs, Join(fs.sep, root, e))
  }

  /** What the fallback can answer: the absolute path of the fixed path of
      some root entry that lists at most 16 entries, where every entry
      visited up to and including it could be listed. */
  lemma {:induction false} DescendAnswer(fs: Fs, ps: seq<Pattern>, root: string,
                                         es: seq<string>, matched: set<string>)
    requires Descend(fs, ps, root, es, matched).Some?
    ensures exists k :: 0 <= k < |es|
              && Descend(fs, ps, root, es, matched) == Some(AbsolutePath(fs, EntryPath(fs, root, es[k])))
              && ListFiles(fs, EntryPath(fs, root, es[k])).Some?
              && |ListFiles(fs, EntryPath(fs, root, es[k])).value| <= MaxSubdirectoryEntries
              && forall j :: 0 <= j <= k ==> ListFiles(fs, EntryPath(fs, root, es[j])).Some?
    decreases |es|
  {
    var sub := EntryPath(fs, root, es[0]);
    var children := ListFiles(fs, sub).value;
    var r := Descend(fs, ps, root, es, matched);
    if |children| <= MaxSubdirectoryEntries && Absorb(fs, sub, false, children, ps, matched) == Complete {
      assert r == Some(AbsolutePath(fs, sub));
    } else {
      var m := if |children| > MaxSubdirectoryEntries then matched
               else Absorb(fs, sub, false, children, ps, matched).matched;
      assert r == Descend(fs, ps, root, es[1..], m);
      DescendAnswer(fs, ps, root, es[1..], m);
      var k :| 0 <= k < |es[1..]|
               && r == Some(AbsolutePath(fs, EntryPath(fs, root, es[1..][k])))
               && ListFiles(fs, EntryPath(fs, root, es[1..][k])).Some?
               && |ListFiles(fs, EntryPath(fs, root, es[1..][k])).value| <= MaxSubdirectoryEntries
               && forall j :: 0 <= j <= k ==> ListFiles(fs, EntryPath(fs, root, es[1..][j])).Some?;
      assert es[k + 1] == es[1..][k];
      forall j | 0 <= j <= k + 1
        ensures ListFiles(fs, EntryPath(fs, root, es[j])).Some?
      {
        if j > 0 {
          assert es[j] == es[1..][j - 1];
        }
      }
    }
  }

  /** The fallback stops at the first entry it cannot list: a plain file
      ahead of every suitable subdirectory ends the search with nothing. */
  lemma DescendStopsAtUnlistable(fs: Fs, ps: seq<Pattern>, root: string,
                                 es: seq<string>, matched: set<string>, k: nat)
    requires k < |es| && ListFiles(fs, EntryPath(fs, root, es[k])).None?
    requires Descend(fs, ps, root, es, matched).Some?
    ensures exists j :: 0 <= j < k
              && Descend(fs, ps, root, es, matched) == Some(AbsolutePath(fs, EntryPath(fs, root, es[j])))
  {
    DescendAnswer(fs, ps, root, es, matched);
  }

  /** `FirstSome` is the answer for the first directory that has one, and
      `None` exactly when no directory has one. */
  lemma {:induction false} FirstSomeSpec(dirs: seq<string>, f: string -> Option<string>)
    ensures FirstSome(dirs, f).None? <==> forall i :: 0 <= i < |dirs| ==> f(dirs[i]).None?
    ensures FirstSome(dirs, f).Some? ==>
              exists i :: 0 <= i < |dirs| && FirstSome(dirs, f) == f(dirs[i])
                          && forall j :: 0 <= j < i ==> f(dirs[j]).None?
    decreases |dirs|
  {
    if dirs != [] && f(dirs[0]).None? {
      var rest := dirs[1..];
      FirstSomeSpec(rest, f);
      if FirstSome(rest, f).Some? {
        var i :| 0 <= i < |rest| && FirstSome(rest, f) == f(rest[i])
                 && forall j :: 0 <= j < i ==> f(rest[j]).None?;
        assert dirs[i + 1] == rest[i];
        forall j | 0 <= j < i + 1
          ensures f(dirs[j]).None?
        {
          if j > 0 {
            assert dirs[j] == rest[j - 1];
          }
        }
      } else {
        forall i | 0 <= i < |dirs|
          ensures f(dirs[i]).None?
        {
          if i > 0 {
            assert dirs[i] == rest[i - 1];
          }
        }
      }
    }
  }
}
