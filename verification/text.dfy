/** The pieces of `java.lang.String` the discovery code relies on:
    `startsWith` (Dafny's prefix `<=`), `replace(CharSequence, CharSequence)`,
    `split` on a one-character separator, and `Boolean.parseBoolean`. */
module Text {
  import opened Wrappers

  /** True when `t` occurs in `s` starting at index `i`. */
  predicate OccursAt(s: string, t: string, i: nat) {
    i + |t| <= |s| && s[i..i + |t|] == t
  }

  ghost predicate Contains(s: string, t: string) {
    exists i: nat :: OccursAt(s, t, i)
  }

  /** `s.replace(t, r)`: every occurrence of `t`, scanned left to right and
      never overlapping, becomes `r`; scanning resumes after the replaced
      occurrence, so text produced by `r` is never rescanned. */
  function ReplaceAll(s: string, t: string, r: string): string
    requires |t| > 0
    decreases |s|
  {
    if |s| < |t| then s
    else if t <= s then r + ReplaceAll(s[|t|..], t, r)
    else [s[0]] + ReplaceAll(s[1..], t, r)
  }

  /** An occurrence of the target at the very start is replaced, so the
      result starts with the replacement. */
  lemma ReplaceAllLeading(s: string, t: string, r: string)
    requires |t| > 0 && t <= s
    ensures r <= ReplaceAll(s, t, r)
    ensures ReplaceAll(s, t, r) == r + ReplaceAll(s[|t|..], t, r)
  {
  }

  /** A string without the target is returned unchanged. */
  lemma {:induction false} ReplaceAllAbsent(s: string, t: string, r: string)
    requires |t| > 0 && !Contains(s, t)
    ensures ReplaceAll(s, t, r) == s
    decreases |s|
  {
    if |s| >= |t| {
      assert !OccursAt(s, t, 0);
      if Contains(s[1..], t) {
        var i: nat :| OccursAt(s[1..], t, i);
        assert OccursAt(s, t, i + 1) by {
          assert s[i + 1..i + 1 + |t|] == s[1..][i..i + |t|];
        }
      }
      ReplaceAllAbsent(s[1..], t, r);
    }
  }

  /** Splitting `s` at every `c`: always one more piece than separators. */
  function Pieces(s: string, c: char): (ps: seq<string>)
    ensures |ps| > 0
    decreases |s|
  {
    if |s| == 0 then [""]
    else
      var rest := Pieces(s[1..], c);
      if s[0] == c then [""] + rest
      else [[s[0]] + rest[0]] + rest[1..]
  }

  /** `String.join(c, ps)`. */
  function JoinWith(ps: seq<string>, c: char): string
    requires |ps| > 0
    decreases |ps|
  {
    if |ps| == 1 then ps[0] else ps[0] + [c] + JoinWith(ps[1..], c)
  }

  lemma JoinWithConsFirst(x: string, ps: seq<string>, c: char)
    requires |ps| > 0
    ensures JoinWith([x + ps[0]] + ps[1..], c) == x + JoinWith(ps, c)
  {
    var qs := [x + ps[0]] + ps[1..];
    assert qs[1..] == ps[1..];
  }

  /** Joining the pieces with the separator gives back the string. */
  lemma {:induction false} JoinPieces(s: string, c: char)
    ensures JoinWith(Pieces(s, c), c) == s
    decreases |s|
  {
    if |s| > 0 {
      var rest := Pieces(s[1..], c);
      JoinPieces(s[1..], c);
      if s[0] == c {
        assert ([""] + rest)[1..] == rest;
      } else {
        JoinWithConsFirst([s[0]], rest, c);
      }
    }
  }

  /** No piece contains the separator. */
  lemma {:induction false} PiecesFree(s: string, c: char)
    ensures forall i :: 0 <= i < |Pieces(s, c)| ==> c !in Pieces(s, c)[i]
    decreases |s|
  {
    if |s| > 0 {
      PiecesFree(s[1..], c);
    }
  }

  /** Conversely, splitting a join of separator-free pieces returns the pieces. */
  lemma {:induction false} PiecesOfJoin(ps: seq<string>, c: char)
    requires |ps| > 0
    requires forall i :: 0 <= i < |ps| ==> c !in ps[i]
    ensures Pieces(JoinWith(ps, c), c) == ps
    decreases |ps|, |ps[0]|
  {
    if |ps| == 1 {
      PiecesOfFree(ps[0], c);
    } else if |ps[0]| == 0 {
      PiecesOfJoin(ps[1..], c);
      var j := JoinWith(ps, c);
      assert j == [c] + JoinWith(ps[1..], c);
      assert j[1..] == JoinWith(ps[1..], c);
      assert ps == [""] + ps[1..];
    } else {
      var head := ps[0];
      var qs := [head[1..]] + ps[1..];
      assert qs[1..] == ps[1..];
      assert forall i :: 0 <= i < |qs| ==> c !in qs[i] by {
        assert forall x :: x in head[1..] ==> x in head;
      }
      PiecesOfJoin(qs, c);
      assert qs[0] == head[1..];
      assert [head[0]] + head[1..] == head;
      assert [[head[0]] + qs[0]] + qs[1..] == ps;
      var j := JoinWith(ps, c);
      assert j == [head[0]] + JoinWith(qs, c) by {
        JoinWithConsFirst([head[0]], qs, c);
      }
      assert j[1..] == JoinWith(qs, c);
      assert head[0] != c by { assert head[0] in head; }
    }
  }

  lemma {:induction false} PiecesOfFree(s: string, c: char)
    requires c !in s
    ensures Pieces(s, c) == [s]
    decreases |s|
  {
    if |s| > 0 {
      assert forall x :: x in s[1..] ==> x in s;
      PiecesOfFree(s[1..], c);
      assert s == [s[0]] + s[1..];
    }
  }

  /** Drops the empty strings at the end of a list, as `String.split` does. */
  function DropTrailingEmpty(ps: seq<string>): (r: seq<string>)
    decreases |ps|
  {
    if |ps| > 0 && ps[|ps| - 1] == "" then DropTrailingEmpty(ps[..|ps| - 1]) else ps
  }

  /** What `DropTrailingEmpty` does, stated without recursion: the result is a
      prefix, everything dropped is empty, and the last element kept is not. */
  lemma {:induction false} DropTrailingEmptySpec(ps: seq<string>)
    ensures DropTrailingEmpty(ps) <= ps
    ensures forall i :: |DropTrailingEmpty(ps)| <= i < |ps| ==> ps[i] == ""
    ensures DropTrailingEmpty(ps) == [] || DropTrailingEmpty(ps)[|DropTrailingEmpty(ps)| - 1] != ""
    decreases |ps|
  {
    if |ps| > 0 && ps[|ps| - 1] == "" {
      DropTrailingEmptySpec(ps[..|ps| - 1]);
    }
  }

  /** `s.split(sep)` for a one-character separator that is not a regular
      expression metacharacter (`File.pathSeparator` is `:` or `;`): with no
      separator present the array is `{s}`, in particular `{""}` for the empty
      string; otherwise all pieces, interior empty ones kept, trailing empty
      ones removed. */
  function JavaSplit(s: string, c: char): seq<string> {
    if c !in s then [s] else DropTrailingEmpty(Pieces(s, c))
  }

  /** The split loses only trailing empty pieces: appending them back and
      joining returns the original string. */
  lemma SplitRecovers(s: string, c: char)
    ensures JavaSplit(s, c) <= Pieces(s, c)
    ensures forall i :: |JavaSplit(s, c)| <= i < |Pieces(s, c)| ==> Pieces(s, c)[i] == ""
    ensures forall i :: 0 <= i < |JavaSplit(s, c)| ==> c !in JavaSplit(s, c)[i]
    ensures c in s ==> JavaSplit(s, c) == [] || JavaSplit(s, c)[|JavaSplit(s, c)| - 1] != ""
    ensures c !in s ==> JavaSplit(s, c) == [s]
  {
    PiecesFree(s, c);
    if c in s {
      DropTrailingEmptySpec(Pieces(s, c));
    } else {
      PiecesOfFree(s, c);
    }
  }

  /** `Character.toLowerCase` restricted to the ASCII letters. */
  function AsciiLower(ch: char): char {
    if 'A' <= ch <= 'Z' then (ch as int + 32) as char else ch
  }

  /** `Boolean.parseBoolean(s)`: true exactly for a non-null string equal to
      "true" ignoring case. Only ASCII letters fold to `t`, `r`, `u`, `e`, so
      ASCII folding is the whole of `equalsIgnoreCase` here. */
  function ParseBoolean(s: Option<string>): bool {
    s.Some? && |s.value| == 4 && forall i :: 0 <= i < 4 ==> AsciiLower(s.value[i]) == "true"[i]
  }

  lemma ParseBooleanExamples()
    ensures ParseBoolean(Some("TRUE")) && ParseBoolean(Some("True")) && ParseBoolean(Some("true"))
    ensures !ParseBoolean(None) && !ParseBoolean(Some("yes")) && !ParseBoolean(Some("1")) && !ParseBoolean(Some(""))
  {
  }
}
