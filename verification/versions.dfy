/** `org.watermedia.videolan4j.tools.Version`: a version string parsed with
    the regular expression `(\d+)\.(\d+)\.(\d+)[-_\s]?(.*)` (whole-string
    match, default flags) and ordered on its three numbers. */
module Versions {
  import opened Wrappers

  /** `Integer.MAX_VALUE`: `Integer.parseInt` rejects any larger value. */
  const IntMax: nat := 0x7fff_ffff

  /** `\d` without UNICODE_CHARACTER_CLASS: ASCII digits only. */
  predicate IsDigit(ch: char) {
    '0' <= ch <= '9'
  }

  /** `\s` without UNICODE_CHARACTER_CLASS: `[ \t\n\x0B\f\r]`. */
  predicate IsSpace(ch: char) {
    ch == ' ' || ch == '\t' || ch == '\n' || ch == '\U{000B}' || ch == '\U{000C}' || ch == '\r'
  }

  /** The optional separator class `[-_\s]`. */
  predicate IsSep(ch: char) {
    ch == '-' || ch == '_' || IsSpace(ch)
  }

  /** The characters `.` does not match without DOTALL (and without UNIX_LINES). */
  predicate IsLineTerminator(ch: char) {
    ch == '\n' || ch == '\r' || ch == '\U{0085}' || ch == '\U{2028}' || ch == '\U{2029}'
  }

  predicate AllDigits(s: string) {
    forall i :: 0 <= i < |s| ==> IsDigit(s[i])
  }

  predicate NoLineTerminator(s: string) {
    forall i :: 0 <= i < |s| ==> !IsLineTerminator(s[i])
  }

  /** Splits off the longest prefix of digits. */
  function SplitDigits(s: string): (p: (string, string))
    ensures p.0 + p.1 == s
    ensures AllDigits(p.0)
    ensures p.1 == [] || !IsDigit(p.1[0])
    decreases |s|
  {
    if |s| > 0 && IsDigit(s[0]) then
      var (d, r) := SplitDigits(s[1..]);
      assert s == [s[0]] + s[1..];
      ([s[0]] + d, r)
    else ([], s)
  }

  /** A run of digits followed by a non-digit (or nothing) is the split found. */
  lemma {:induction false} SplitDigitsOf(d: string, r: string)
    requires AllDigits(d)
    requires r == [] || !IsDigit(r[0])
    ensures SplitDigits(d + r) == (d, r)
    decreases |d|
  {
    if |d| > 0 {
      assert (d + r)[0] == d[0];
      assert (d + r)[1..] == d[1..] + r;
      SplitDigitsOf(d[1..], r);
      assert d == [d[0]] + d[1..];
    } else {
      assert d + r == r;
    }
  }

  /** The four capture groups, plus the optional separator between the third
      and the fourth. */
  datatype Groups = Groups(major: string, minor: string, revision: string, sep: string, extra: string)

  function Render(g: Groups): string {
    g.major + ("." + (g.minor + ("." + (g.revision + (g.sep + g.extra)))))
  }

  /** The strings the pattern matches are exactly the renderings of these
      decompositions. */
  predicate InLanguage(g: Groups) {
    && |g.major| > 0 && AllDigits(g.major)
    && |g.minor| > 0 && AllDigits(g.minor)
    && |g.revision| > 0 && AllDigits(g.revision)
    && |g.sep| <= 1 && (|g.sep| == 1 ==> IsSep(g.sep[0]))
    && NoLineTerminator(g.extra)
  }

  /** The string matches `(\d+)\.(\d+)\.(\d+)[-_\s]?(.*)` as a whole. */
  ghost predicate Matches(s: string) {
    exists g :: InLanguage(g) && Render(g) == s
  }

  /** The decomposition a greedy matcher reports: the third group takes every
      digit, and `[-_\s]?` takes a separator whenever there is one. */
  predicate Greedy(g: Groups) {
    && InLanguage(g)
    && (g.sep == [] && |g.extra| > 0 ==> !IsDigit(g.extra[0]) && !IsSep(g.extra[0]))
  }

  /** `[-_\s]?(.*)$` on what follows the third group. */
  function MatchTail(r: string): (t: Option<(string, string)>)
    ensures t.Some? ==> t.value.0 + t.value.1 == r
  {
    if |r| > 0 && IsSep(r[0]) then
      if NoLineTerminator(r[1..]) then
        assert r == [r[0]] + r[1..];
        Some(([r[0]], r[1..]))
      else None
    else if NoLineTerminator(r) then Some(([], r))
    else None
  }

  /** `VERSION_PATTERN.matcher(s).matches()` with its groups, written as a
      hand parser. */
  function Match(s: string): (r: Option<Groups>)
    ensures r.Some? ==> Greedy(r.value) && Render(r.value) == s
  {
    var (d1, r1) := SplitDigits(s);
    if |d1| == 0 || |r1| == 0 || r1[0] != '.' then None
    else
      assert r1 == "." + r1[1..];
      var (d2, r2) := SplitDigits(r1[1..]);
      if |d2| == 0 || |r2| == 0 || r2[0] != '.' then None
      else
        assert r2 == "." + r2[1..];
        var (d3, r3) := SplitDigits(r2[1..]);
        if |d3| == 0 then None
        else
          match MatchTail(r3)
          case None => None
          case Some((sep, extra)) => Some(Groups(d1, d2, d3, sep, extra))
  }

  /** The greedy decomposition of a string is unique: the parser finds it. */
  lemma MatchGreedy(g: Groups)
    requires Greedy(g)
    ensures Match(Render(g)) == Some(g)
  {
    var x3 := g.sep + g.extra;
    var x2 := "." + (g.revision + x3);
    var x1 := "." + (g.minor + x2);
    assert x3 == [] || !IsDigit(x3[0]) by {
      if |g.sep| == 1 {
        assert x3[0] == g.sep[0];
      } else if |x3| > 0 {
        assert x3 == g.extra;
      }
    }
    SplitDigitsOf(g.major, x1);
    assert x1[1..] == g.minor + x2;
    SplitDigitsOf(g.minor, x2);
    assert x2[1..] == g.revision + x3;
    SplitDigitsOf(g.revision, x3);
    if |g.sep| == 1 {
      assert x3[0] == g.sep[0] && x3[1..] == g.extra;
      assert [x3[0]] == g.sep;
    } else {
      assert x3 == g.extra;
    }
  }

  /** Every string of the pattern's language is accepted, however it was
      decomposed: backtracking cannot rescue a string the greedy parse rejects. */
  lemma MatchLanguage(g: Groups)
    requires InLanguage(g)
    ensures Match(Render(g)).Some?
  {
    if g.sep != [] {
      MatchGreedy(g);
    } else {
      var (k, rest) := SplitDigits(g.extra);
      assert NoLineTerminator(rest) by {
        assert forall i :: 0 <= i < |rest| ==> rest[i] == g.extra[|k| + i];
      }
      var g' :=
        if |rest| > 0 && IsSep(rest[0]) then Groups(g.major, g.minor, g.revision + k, [rest[0]], rest[1..])
        else Groups(g.major, g.minor, g.revision + k, "", rest);
      assert g'.sep + g'.extra == rest by {
        if |rest| > 0 && IsSep(rest[0]) {
          assert rest == [rest[0]] + rest[1..];
        }
      }
      assert g'.revision + (g'.sep + g'.extra) == g.revision + (g.sep + g.extra);
      assert Render(g') == Render(g);
      MatchGreedy(g');
    }
  }

  /** The parser accepts exactly the strings the pattern matches as a whole. */
  lemma MatchIffPattern(s: string)
    ensures Match(s).Some? <==> Matches(s)
  {
    if Matches(s) {
      var g :| InLanguage(g) && Render(g) == s;
      MatchLanguage(g);
    }
  }

  function DigitValue(ch: char): nat
    requires IsDigit(ch)
  {
    ch as nat - '0' as nat
  }

  /** The value `Integer.parseInt` computes for a string of ASCII digits,
      before its range check. */
  function DecimalValue(ds: string): nat
    requires AllDigits(ds)
    decreases |ds|
  {
    if |ds| == 0 then 0 else DecimalValue(ds[..|ds| - 1]) * 10 + DigitValue(ds[|ds| - 1])
  }

  /** The shortest decimal numeral of `n`. */
  function DecString(n: nat): (ds: string)
    ensures |ds| > 0 && AllDigits(ds)
  {
    if n < 10 then ['0' + n as char] else DecString(n / 10) + ['0' + (n % 10) as char]
  }

  lemma {:induction false} DecStringValue(n: nat)
    ensures DecimalValue(DecString(n)) == n
  {
    if n >= 10 {
      var ds := DecString(n);
      assert ds[..|ds| - 1] == DecString(n / 10);
      DecStringValue(n / 10);
    }
  }

  /** A parsed version. `extra` is never null: the pattern always has four groups. */
  datatype Version = Version(raw: string, major: nat, minor: nat, revision: nat, extra: string)

  /** The numbers fit a Java `int`. */
  predicate Valid(v: Version) {
    v.major <= IntMax && v.minor <= IntMax && v.revision <= IntMax
  }

  /** Both ways `new Version(s)` fails throw `IllegalArgumentException`; the
      second is its subclass `NumberFormatException`. */
  datatype ParseError = NoMatch | NumberTooLarge

  /** `new Version(s)`. */
  function Parse(s: string): (r: Result<Version, ParseError>)
    ensures r.Ok? ==> Valid(r.value) && r.value.raw == s && Matches(s)
    ensures r == Err(NoMatch) <==> !Matches(s)
  {
    MatchIffPattern(s);
    match Match(s)
    case None => Err(NoMatch)
    case Some(g) =>
      var major := DecimalValue(g.major);
      var minor := DecimalValue(g.minor);
      var revision := DecimalValue(g.revision);
      if major <= IntMax && minor <= IntMax && revision <= IntMax then
        Ok(Version(s, major, minor, revision, g.extra))
      else
        Err(NumberTooLarge)
  }

  /** For a matching string, the three numbers are the decimal values of the
      three digit groups of its (unique) greedy decomposition, `extra` is what
      follows the optional separator, and a group above `Integer.MAX_VALUE`
      fails the parse even though the pattern matched. */
  lemma ParseGroups(g: Groups)
    requires Greedy(g)
    ensures var s := Render(g);
            var major := DecimalValue(g.major);
            var minor := DecimalValue(g.minor);
            var revision := DecimalValue(g.revision);
            Parse(s) == if major <= IntMax && minor <= IntMax && revision <= IntMax
                        then Ok(Version(s, major, minor, revision, g.extra))
                        else Err(NumberTooLarge)
  {
    MatchGreedy(g);
  }

  /** The canonical text of three numbers with nothing after them. */
  function Numbers(major: nat, minor: nat, revision: nat): string {
    DecString(major) + "." + DecString(minor) + "." + DecString(revision)
  }

  /** Printing three numbers and parsing the result gives them back, with an
      empty `extra`; numbers beyond `Integer.MAX_VALUE` make the parse fail. */
  lemma ParseNumbers(major: nat, minor: nat, revision: nat)
    ensures major <= IntMax && minor <= IntMax && revision <= IntMax ==>
              Parse(Numbers(major, minor, revision)) == Ok(Version(Numbers(major, minor, revision), major, minor, revision, ""))
    ensures !(major <= IntMax && minor <= IntMax && revision <= IntMax) ==>
              Parse(Numbers(major, minor, revision)) == Err(NumberTooLarge)
  {
    var g := Groups(DecString(major), DecString(minor), DecString(revision), "", "");
    assert Render(g) == Numbers(major, minor, revision);
    DecStringValue(major);
    DecStringValue(minor);
    DecStringValue(revision);
    ParseGroups(g);
  }

  /** At most one separator character is dropped; everything after it up to
      the end, which may be empty, becomes `extra`. */
  lemma ParseExtra(major: nat, minor: nat, revision: nat, sep: char, extra: string)
    requires major <= IntMax && minor <= IntMax && revision <= IntMax
    requires IsSep(sep) && NoLineTerminator(extra)
    ensures var s := Numbers(major, minor, revision) + [sep] + extra;
            Parse(s) == Ok(Version(s, major, minor, revision, extra))
  {
    var g := Groups(DecString(major), DecString(minor), DecString(revision), [sep], extra);
    assert Render(g) == Numbers(major, minor, revision) + [sep] + extra;
    DecStringValue(major);
    DecStringValue(minor);
    DecStringValue(revision);
    ParseGroups(g);
  }

  /** `toString()` and `version()` both return the string given to the constructor. */
  function ToString(v: Version): string {
    v.raw
  }

  /** The order on versions, by (major, minor, revision); `extra` never counts. */
  predicate Below(a: Version, b: Version) {
    || a.major < b.major
    || (a.major == b.major && a.minor < b.minor)
    || (a.major == b.major && a.minor == b.minor && a.revision < b.revision)
  }

  predicate SameNumbersAs(a: Version, b: Version) {
    a.major == b.major && a.minor == b.minor && a.revision == b.revision
  }

  /** `a.compareTo(b)`: the first non-zero difference of the three numbers.
      For valid versions each difference fits an `int`, so the Java
      subtraction is exact and the sign is the order's. */
  function CompareTo(a: Version, b: Version): (d: int)
    ensures Valid(a) && Valid(b) ==> -(IntMax as int) <= d <= IntMax
    ensures d < 0 <==> Below(a, b)
    ensures d == 0 <==> SameNumbersAs(a, b)
    ensures d > 0 <==> Below(b, a)
  {
    var delta := a.major - b.major;
    if delta == 0 then
      var delta2 := a.minor - b.minor;
      if delta2 == 0 then a.revision - b.revision else delta2
    else delta
  }

  /** `a.atLeast(required)`. */
  function AtLeast(a: Version, required: Version): (r: bool)
    ensures r <==> !Below(a, required)
  {
    CompareTo(a, required) >= 0
  }

  lemma AtLeastReflexive(a: Version)
    ensures AtLeast(a, a)
  {
  }

  lemma AtLeastTransitive(a: Version, b: Version, c: Version)
    requires AtLeast(a, b) && AtLeast(b, c)
    ensures AtLeast(a, c)
  {
  }

  lemma AtLeastTotal(a: Version, b: Version)
    ensures AtLeast(a, b) || AtLeast(b, a)
    ensures AtLeast(a, b) && AtLeast(b, a) <==> SameNumbersAs(a, b)
  {
  }

  /** `compareTo` is antisymmetric in sign. */
  lemma CompareToAntisymmetric(a: Version, b: Version)
    ensures CompareTo(a, b) < 0 <==> CompareTo(b, a) > 0
  {
  }

  /** `VideoLan4J.LIBVLC_MIN_VERSION`. */
  const MinVersion := Version("3.0.0", 3, 0, 0, "")

  lemma MinVersionParses()
    ensures Parse("3.0.0") == Ok(MinVersion)
  {
    ParseNumbers(3, 0, 0);
    assert Numbers(3, 0, 0) == "3.0.0";
  }

  /** "3.1.0" is at least "3.0.9"; "2.9.9" is not at least "3.0.0". */
  lemma AtLeastExamples()
    ensures AtLeast(Version("3.1.0", 3, 1, 0, ""), Version("3.0.9", 3, 0, 9, ""))
    ensures !AtLeast(Version("2.9.9", 2, 9, 9, ""), MinVersion)
  {
  }

  /** The third group is greedy and the rest goes to `extra`:
      "3.0.18abc" has revision 18 and extra "abc". */
  lemma GreedyRevisionExample()
    ensures Parse("3.0.18abc") == Ok(Version("3.0.18abc", 3, 0, 18, "abc"))
  {
    var g := Groups("3", "0", "18", "", "abc");
    assert Greedy(g);
    assert Render(g) == "3.0.18abc";
    assert DecimalValue("3") == 3;
    assert DecimalValue("0") == 0;
    assert DecimalValue("18") == 18 by {
      assert "18"[..1] == "1";
    }
    ParseGroups(g);
  }

}
