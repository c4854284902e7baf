/** Turning a media URI into the call that creates a libVLC media: the
    `getMediaInstance` overloads of the three copies. Java prints a local
    file URI as `file:/x`, while libVLC wants the empty-authority form
    `file:///x` of section 2 of RFC 8089; the two older copies rewrite the
    string with the global `String.replace`, the current one hands file URIs
    over as plain paths instead. */
module Mrl {
  import opened Wrappers
  import opened Text

  /** The libVLC constructor a media is created with. */
  datatype MediaCall = NewPath(path: string) | NewLocation(mrl: string)

  /** The parts of a `java.net.URI` the current copy reads: `getScheme()`
      and `getPath()` (both null for some URIs) and `toString()`. */
  datatype Uri = Uri(scheme: Option<string>, path: Option<string>, text: string)

  /** Dereferencing one of the nulls above. */
  datatype MediaError = NullPointer

  /** The `me` copy: a `file:` MRL that lacks the third slash gets it, by
      replacing every `file://` (when it starts so) or every `file:/`. */
  function RewriteMe(mrl: string): string {
    if "file:" <= mrl && !("file:///" <= mrl) then
      if "file://" <= mrl then ReplaceAll(mrl, "file://", "file:///")
      else if "file:/" <= mrl then ReplaceAll(mrl, "file:/", "file:///")
      else mrl
    else mrl
  }

  /** The `uk` copy: every `file:/` becomes `file:///` unless the MRL
      already starts with `file:///`. */
  function RewriteUk(mrl: string): string {
    if "file:/" <= mrl && !("file:///" <= mrl) then ReplaceAll(mrl, "file:/", "file:///") else mrl
  }

  /** `getMediaInstance(vlc, URI)` of the current copy: a URI with scheme
      exactly `file` is opened by its path, any other by its text; a URI
      without a scheme, or a `file` URI without a path, dereferences null. */
  function OrgMedia(u: Uri): Result<MediaCall, MediaError> {
    match u.scheme
    case None => Err(NullPointer)
    case Some(s) =>
      if s == "file" then
        match u.path
        case None => Err(NullPointer)
        case Some(p) => Ok(NewPath(p))
      else Ok(NewLocation(u.text))
  }

  /** `getMediaInstance(vlc, URI)` of the `me` copy. */
  function MeMedia(u: Uri): MediaCall {
    NewLocation(RewriteMe(u.text))
  }

  /** `getMediaInstance(vlc, URL)` of the `uk` copy. */
  function UkMedia(u: Uri): MediaCall {
    NewLocation(RewriteUk(u.text))
  }

  /** The `File` overloads, given `File.toString()`: a path in the current
      and `me` copies, a location in the `uk` copy. */
  function FileMedia(copyIsUk: bool, file: string): MediaCall {
    if copyIsUk then NewLocation(file) else NewPath(file)
  }

  /** Which libVLC constructor each overload reaches, and when the current
      copy fails. */
  lemma MediaCallsSpec(u: Uri, file: string)
    ensures OrgMedia(u).Err? <==> u.scheme.None? || (u.scheme == Some("file") && u.path.None?)
    ensures OrgMedia(u).Ok? && u.scheme == Some("file") ==> OrgMedia(u) == Ok(NewPath(u.path.value))
    ensures OrgMedia(u).Ok? && u.scheme != Some("file") ==> OrgMedia(u) == Ok(NewLocation(u.text))
    ensures OrgMedia(Uri(Some("FILE"), Some("/x"), "FILE:/x")) == Ok(NewLocation("FILE:/x"))
    ensures MeMedia(u).NewLocation? && UkMedia(u).NewLocation?
    ensures FileMedia(false, file) == NewPath(file) && FileMedia(true, file) == NewLocation(file)
  {
  }

  /** A string beginning with `/` contains a target that does not begin
      with `/` only inside its tail. */
  lemma ContainsAfterSlash(p: string, t: string)
    requires |t| > 0 && t[0] != '/'
    ensures Contains("/" + p, t) ==> Contains(p, t)
  {
    if Contains("/" + p, t) {
      var i: nat :| OccursAt("/" + p, t, i);
      assert i != 0 by {
        assert ("/" + p)[0] != t[0];
      }
      assert OccursAt(p, t, i - 1) by {
        assert ("/" + p)[i..i + |t|] == p[i - 1..i - 1 + |t|];
      }
    }
  }

  /** A string containing `file://` contains `file:/`. */
  lemma ContainsShorter(p: string)
    ensures Contains(p, "file://") ==> Contains(p, "file:/")
  {
    if Contains(p, "file://") {
      var i: nat :| OccursAt(p, "file://", i);
      assert OccursAt(p, "file:/", i) by {
        assert p[i..i + 6] == p[i..i + 7][..6];
      }
    }
  }

  /** The `me` rewrite: an MRL that does not start with `file:/` (this
      includes `file:` followed by any other character) is unchanged, as is
      one already in the `file:///` form; every MRL that starts with
      `file:/` comes out starting with `file:///`. */
  lemma RewriteMeShape(mrl: string)
    ensures !("file:/" <= mrl) || "file:///" <= mrl ==> RewriteMe(mrl) == mrl
    ensures "file:/" <= mrl ==> "file:///" <= RewriteMe(mrl)
  {
    if "file:/" <= mrl && !("file:///" <= mrl) {
      if "file://" <= mrl {
        ReplaceAllLeading(mrl, "file://", "file:///");
      } else {
        ReplaceAllLeading(mrl, "file:/", "file:///");
      }
    } else if "file:" <= mrl && !("file:///" <= mrl) {
      assert !("file://" <= mrl) by {
        assert "file:/" == "file://"[..6];
      }
    }
  }

  /** The `uk` rewrite keeps the same two promises. */
  lemma RewriteUkShape(mrl: string)
    ensures !("file:/" <= mrl) || "file:///" <= mrl ==> RewriteUk(mrl) == mrl
    ensures "file:/" <= mrl ==> "file:///" <= RewriteUk(mrl)
  {
    if "file:/" <= mrl && !("file:///" <= mrl) {
      ReplaceAllLeading(mrl, "file:/", "file:///");
    }
  }

  /** Rewriting twice is rewriting once, in both copies. */
  lemma RewriteIdempotent(mrl: string)
    ensures RewriteMe(RewriteMe(mrl)) == RewriteMe(mrl)
    ensures RewriteUk(RewriteUk(mrl)) == RewriteUk(mrl)
  {
    RewriteMeShape(mrl);
    RewriteMeShape(RewriteMe(mrl));
    RewriteUkShape(mrl);
    RewriteUkShape(RewriteUk(mrl));
  }

  /** `file:/x` (Java's form of a local file) becomes `file:///x` in both
      copies when nothing later in it looks like another file URI. */
  lemma OneSlashCompleted(p: string)
    requires !("/" <= p) && !Contains(p, "file:/")
    ensures RewriteMe("file:/" + p) == "file:///" + p
    ensures RewriteUk("file:/" + p) == "file:///" + p
  {
    var mrl := "file:/" + p;
    assert "file:/" <= mrl;
    assert !("file:///" <= mrl) && !("file://" <= mrl) by {
      if |p| > 0 {
        assert mrl[6] == p[0] != '/';
      }
    }
    ReplaceAllLeading(mrl, "file:/", "file:///");
    assert mrl[6..] == p;
    ReplaceAllAbsent(p, "file:/", "file:///");
  }

  /** `file://x` loses its authority in the `me` copy, becoming `file:///x`. */
  lemma TwoSlashesCompletedMe(p: string)
    requires !("/" <= p) && !Contains(p, "file:/")
    ensures RewriteMe("file://" + p) == "file:///" + p
  {
    var mrl := "file://" + p;
    assert "file:" <= mrl && "file://" <= mrl;
    assert !("file:///" <= mrl) by {
      if |p| > 0 {
        assert mrl[7] == p[0] != '/';
      }
    }
    assert mrl[7..] == p;
    ReplaceAllLeading(mrl, "file://", "file:///");
    ContainsShorter(p);
    ReplaceAllAbsent(p, "file://", "file:///");
  }

  /** The `uk` copy turns `file://x` into `file:////x`: the authority
      slashes are kept and two more are added. */
  lemma TwoSlashesDoubledUk(p: string)
    requires !("/" <= p) && !Contains(p, "file:/")
    ensures RewriteUk("file://" + p) == "file:////" + p
  {
    var mrl := "file://" + p;
    assert "file:/" <= mrl;
    assert !("file:///" <= mrl) by {
      if |p| > 0 {
        assert mrl[7] == p[0] != '/';
      }
    }
    ReplaceAllLeading(mrl, "file:/", "file:///");
    assert mrl[6..] == "/" + p;
    ContainsAfterSlash(p, "file:/");
    ReplaceAllAbsent("/" + p, "file:/", "file:///");
  }

  /** `String.replace` on an MRL holding two file URIs. */
  lemma ReplaceBothOccurrences()
    ensures ReplaceAll("file:/a|file:/b", "file:/", "file:///") == "file:///a|file:///b"
  {
    var t := "file:/";
    var r := "file:///";
    assert ReplaceAll("b", t, r) == "b";
    assert ReplaceAll("file:/b", t, r) == r + "b" by {
      ReplaceAllLeading("file:/b", t, r);
      assert "file:/b"[6..] == "b";
    }
    assert ReplaceAll("|file:/b", t, r) == "|" + r + "b" by {
      assert "|file:/b"[0] != t[0];
      assert "|file:/b"[1..] == "file:/b";
    }
    assert ReplaceAll("a|file:/b", t, r) == "a|" + r + "b" by {
      assert "a|file:/b"[0] != t[0];
      assert "a|file:/b"[1..] == "|file:/b";
    }
    ReplaceAllLeading("file:/a|file:/b", t, r);
    assert "file:/a|file:/b"[6..] == "a|file:/b";
  }

  /** The replacement is global: a second `file:/` later in the MRL is
      rewritten too. */
  lemma LaterOccurrencesRewritten()
    ensures RewriteMe("file:/a|file:/b") == "file:///a|file:///b"
    ensures RewriteUk("file:/a|file:/b") == "file:///a|file:///b"
  {
    ReplaceBothOccurrences();
    assert !("file://" <= "file:/a|file:/b") by {
      assert "file:/a|file:/b"[6] == 'a';
    }
  }
}
