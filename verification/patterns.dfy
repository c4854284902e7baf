/** The file-name patterns each platform rule looks for. Two shapes occur:
    an exact name with its dots escaped (`libvlc\.dll`) and a shared-object
    name followed by any number of single-digit version components
    (`libvlc\.so(?:\.\d)*`). A pattern is identified by its source text, as
    `Pattern.pattern()` returns it; the scanner collects those texts. */
module Patterns {
  import opened Versions

  datatype Pattern =
    | Exact(name: string)
    | SharedObject(stem: string)

  /** A regular-expression literal for `s`: every `.` escaped. */
  function Escape(s: string): (e: string)
    ensures |e| >= |s|
  {
    if s == [] then []
    else (if s[0] == '.' then "\\." else [s[0]]) + Escape(s[1..])
  }

  /** `Pattern.pattern()`: the source text the pattern was compiled from. */
  function Source(p: Pattern): string {
    match p
    case Exact(n) => Escape(n)
    case SharedObject(stem) => Escape(stem) + "\\.so(?:\\.\\d)*"
  }

  /** `(?:\.\d)*`: zero or more groups of a dot and one ASCII digit. */
  predicate DotDigits(s: string)
    decreases |s|
  {
    s == [] || (|s| >= 2 && s[0] == '.' && IsDigit(s[1]) && DotDigits(s[2..]))
  }

  /** `pattern.matcher(name).matches()`: the whole name must match. */
  predicate Matches(p: Pattern, name: string) {
    match p
    case Exact(n) => name == n
    case SharedObject(stem) =>
      stem + ".so" <= name && DotDigits(name[|stem| + 3..])
  }

  /** Windows: `libvlc\.dll`, `libvlccore\.dll`. */
  const WinPatterns: seq<Pattern> := [Exact("libvlc.dll"), Exact("libvlccore.dll")]

  /** macOS: `libvlc\.dylib`, `libvlccore\.dylib`. */
  const MacPatterns: seq<Pattern> := [Exact("libvlc.dylib"), Exact("libvlccore.dylib")]

  /** Linux, and the legacy Windows rule that reuses it: `libvlc\.so(?:\.\d)*`,
      `libvlccore\.so(?:\.\d)*`. */
  const SoPatterns: seq<Pattern> := [SharedObject("libvlc"), SharedObject("libvlccore")]

  /** No two patterns of a list share a source text. */
  predicate DistinctSources(ps: seq<Pattern>) {
    forall i, j :: 0 <= i < j < |ps| ==> Source(ps[i]) != Source(ps[j])
  }

  /** A name without dots is its own regular expression. */
  lemma {:induction false} EscapeNoDot(s: string)
    requires '.' !in s
    ensures Escape(s) == s
  {
    if s != [] {
      assert '.' !in s[1..] by { assert forall x :: x in s[1..] ==> x in s; }
      EscapeNoDot(s[1..]);
    }
  }

  /** For names without backslashes, escaping loses nothing: distinct names
      give distinct regular expressions. */
  lemma {:induction false} EscapeInjective(a: string, b: string)
    requires '\\' !in a && '\\' !in b
    requires Escape(a) == Escape(b)
    ensures a == b
    decreases |a|
  {
    if a != [] && b != [] {
      assert a[0] != '\\' && b[0] != '\\';
      assert '\\' !in a[1..] && '\\' !in b[1..] by {
        assert forall x :: x in a[1..] ==> x in a;
        assert forall x :: x in b[1..] ==> x in b;
      }
      var k := if a[0] == '.' then 2 else 1;
      assert (a[0] == '.') == (Escape(a)[0] == '\\');
      assert (b[0] == '.') == (Escape(b)[0] == '\\');
      assert Escape(a[1..]) == Escape(a)[k..];
      assert Escape(b[1..]) == Escape(b)[k..];
      EscapeInjective(a[1..], b[1..]);
      assert a == [a[0]] + a[1..] && b == [b[0]] + b[1..];
    }
  }

  /** Two different patterns of the same shape have different sources. */
  lemma SourcesDiffer(p: Pattern, q: Pattern)
    requires p.Exact? == q.Exact?
    requires p.Exact? ==> '\\' !in p.name && '\\' !in q.name
    requires p.SharedObject? ==> '\\' !in p.stem && '\\' !in q.stem
    requires p != q
    ensures Source(p) != Source(q)
  {
    if Source(p) == Source(q) {
      if p.Exact? {
        EscapeInjective(p.name, q.name);
      } else {
        var k := "\\.so(?:\\.\\d)*";
        assert Escape(p.stem) == Source(p)[..|Source(p)| - |k|];
        assert Escape(q.stem) == Source(q)[..|Source(q)| - |k|];
        EscapeInjective(p.stem, q.stem);
      }
    }
  }

  lemma PairDistinct(ps: seq<Pattern>)
    requires |ps| == 2 && Source(ps[0]) != Source(ps[1])
    ensures DistinctSources(ps)
  {
  }

  /** Within each platform's list the source texts are distinct, so the
      scanner's set of matched sources can reach the list's length. */
  lemma PatternListsDistinct()
    ensures DistinctSources(WinPatterns) && DistinctSources(MacPatterns) && DistinctSources(SoPatterns)
  {
    SourcesDiffer(WinPatterns[0], WinPatterns[1]);
    PairDistinct(WinPatterns);
    SourcesDiffer(MacPatterns[0], MacPatterns[1]);
    PairDistinct(MacPatterns);
    SourcesDiffer(SoPatterns[0], SoPatterns[1]);
    PairDistinct(SoPatterns);
  }

  /** A shared-object name matches exactly when it is the stem, `.so`, and a
      run of `.d` groups. */
  lemma {:induction false} SharedObjectShape(stem: string, suffix: string)
    ensures Matches(SharedObject(stem), stem + ".so" + suffix) <==> DotDigits(suffix)
  {
    var name := stem + ".so" + suffix;
    assert name[|stem| + 3..] == suffix;
  }

  /** Only single-digit components match: `libvlc.so.5.6.1` does,
      `libvlc.so.12` does not, and neither does a trailing dot. */
  lemma SharedObjectExamples()
    ensures Matches(SoPatterns[0], "libvlc.so")
    ensures Matches(SoPatterns[0], "libvlc.so.5")
    ensures Matches(SoPatterns[0], "libvlc.so.5.6.1")
    ensures !Matches(SoPatterns[0], "libvlc.so.12")
    ensures !Matches(SoPatterns[0], "libvlc.so.")
    ensures !Matches(SoPatterns[0], "libvlc.dll")
  {
    SharedObjectShape("libvlc", "");
    SharedObjectShape("libvlc", ".5");
    SharedObjectShape("libvlc", ".5.6.1");
    assert DotDigits(".5.6.1") by {
      assert ".5.6.1"[2..] == ".6.1" && ".6.1"[2..] == ".1" && ".1"[2..] == "";
    }
    SharedObjectShape("libvlc", ".12");
    assert !DotDigits(".12") by { assert ".12"[2..] == "2"; }
    SharedObjectShape("libvlc", ".");
  }

  /** The two shared-object patterns never match the same name, so one file
      can never satisfy both halves of the rule. */
  lemma SoPatternsDisjoint(name: string)
    ensures !(Matches(SoPatterns[0], name) && Matches(SoPatterns[1], name))
  {
    if Matches(SoPatterns[0], name) {
      assert name[6] == '.' by { assert "libvlc.so" <= name; }
      assert !("libvlccore.so" <= name) by { assert "libvlccore.so"[6] == 'c'; }
    }
  }

  /** The legacy Windows rule reuses the shared-object patterns, so no
      Windows library file name ever satisfies it. */
  lemma SoPatternsRejectDll(p: Pattern)
    requires p in SoPatterns
    ensures !Matches(p, "libvlc.dll") && !Matches(p, "libvlccore.dll")
  {
    if p == SoPatterns[0] {
      assert !("libvlc.so" <= "libvlccore.dll") by { assert "libvlccore.dll"[6] != "libvlc.so"[6]; }
      assert !("libvlc.so" <= "libvlc.dll") by { assert "libvlc.dll"[7] != "libvlc.so"[7]; }
    } else {
      assert !("libvlccore.so" <= "libvlccore.dll") by { assert "libvlccore.dll"[11] != "libvlccore.so"[11]; }
    }
  }
}
