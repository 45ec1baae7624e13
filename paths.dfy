/**
 * The path helpers of the output stage: the site's directory name under
 * `public`, the backup path `with_extension("src.html")`, and the test that
 * picks HTML files by extension. Paths are Unix path strings with `/` as the
 * only separator.
 */
module Paths {
  import opened Wrappers
  import opened Text

  /** `replace(' ', "_")`: every space becomes an underscore and nothing else changes. */
  function PublicDirName(site: string): (r: string)
    ensures |r| == |site|
    ensures forall i :: 0 <= i < |r| ==> r[i] != ' '
    ensures forall i :: 0 <= i < |r| ==> r[i] == site[i] || (site[i] == ' ' && r[i] == '_')
  {
    seq(|site|, i requires 0 <= i < |site| => if site[i] == ' ' then '_' else site[i])
  }

  /** A name without spaces is kept as it is, so renaming twice is renaming once. */
  lemma PublicDirNameIdempotent(site: string)
    ensures PublicDirName(PublicDirName(site)) == PublicDirName(site)
    ensures (forall i :: 0 <= i < |site| ==> site[i] != ' ') ==> PublicDirName(site) == site
  {
  }

  /** The last index holding `c`, if any. */
  function LastIndexOf(s: string, c: char): (r: Option<nat>)
    ensures r.Some? ==> r.value < |s| && s[r.value] == c
    ensures r.Some? ==> forall j :: r.value < j < |s| ==> s[j] != c
    ensures r.None? ==> forall j :: 0 <= j < |s| ==> s[j] != c
  {
    if s == [] then None
    else if s[|s| - 1] == c then Some(|s| - 1)
    else LastIndexOf(s[..|s| - 1], c)
  }

  /**
   * The path without what `components()` ignores at its end: trailing `/`
   * and trailing `/.` components.
   */
  function TrimTail(p: string): (t: string)
    ensures StartsWith(p, t)
    ensures !EndsWith(t, "/") && !EndsWith(t, "/.")
  {
    if EndsWith(p, "/") then TrimTail(p[..|p| - 1])
    else if EndsWith(p, "/.") then TrimTail(p[..|p| - 2])
    else p
  }

  /** A trailing `/` or `/.` does not change the file name: `a/b.txt/.` names `b.txt`. */
  lemma TrailingSeparatorIgnored(p: string)
    ensures TrimTail(p + "/") == TrimTail(p) && TrimTail(p + "/.") == TrimTail(p)
    ensures FileName(p + "/") == FileName(p) && FileName(p + "/.") == FileName(p)
  {
    assert (p + "/")[..|p|] == p;
    var q := p + "/.";
    assert q[|q| - 1] == '.';
    assert q[..|p|] == p;
  }

  /** Where the last component of a trimmed path starts. */
  function NameStart(t: string): (n: nat)
    ensures n <= |t|
    ensures forall j :: n <= j < |t| ==> t[j] != '/'
    ensures n > 0 ==> t[n - 1] == '/'
  {
    match LastIndexOf(t, '/')
    case None => 0
    case Some(i) => i + 1
  }

  /**
   * `file_name()`: the last component when it is a normal one; none for the
   * empty path, the root, `.` and `..`.
   */
  function FileName(p: string): (r: Option<string>)
    ensures r.Some? ==> r.value != [] && forall j :: 0 <= j < |r.value| ==> r.value[j] != '/'
  {
    var f := LastComponent(p);
    if f == "" || f == "." || f == ".." then None else Some(f)
  }

  /** The text of the last component, whatever its kind. */
  function LastComponent(p: string): string {
    var t := TrimTail(p);
    t[NameStart(t)..]
  }

  /**
   * `rsplit_file_at_dot` followed by `file_stem` / `extension`: the split is
   * at the last dot, except that `..` and a name whose only dot is its first
   * character have no extension.
   */
  function SplitAtDot(f: string): (r: (string, Option<string>))
    ensures StartsWith(f, r.0)
    ensures f != [] ==> r.0 != []
    ensures r.1.Some? ==> f == r.0 + "." + r.1.value
    ensures r.1.None? ==> r.0 == f
    ensures r.1.None? <==> (f == ".." || forall i :: 0 < i < |f| ==> f[i] != '.')
    ensures r.1.Some? ==> forall j :: 0 <= j < |r.1.value| ==> r.1.value[j] != '.'
  {
    if f == ".." then (f, None)
    else
      match LastIndexOf(f, '.')
      case None => (f, None)
      case Some(d) =>
        if d == 0 then (f, None)
        else
          assert f == f[..d] + "." + f[d + 1..] by {
            assert f == f[..d] + f[d..];
            assert f[d..] == "." + f[d + 1..];
          }
          (f[..d], Some(f[d + 1..]))
  }

  /** `file_stem()`: a non-empty prefix of the file name, and none without a file name. */
  function Stem(p: string): (r: Option<string>)
    ensures r.Some? <==> FileName(p).Some?
    ensures r.Some? ==> r.value != [] && StartsWith(FileName(p).value, r.value)
  {
    match FileName(p)
    case None => None
    case Some(f) => Some(SplitAtDot(f).0)
  }

  /**
   * `extension()`: what follows the file name's last dot, free of dots; none
   * without a file name, for `..`, and for a name with no dot after its first
   * character.
   */
  function Extension(p: string): (r: Option<string>)
    ensures r.Some? ==> FileName(p).Some? && EndsWith(FileName(p).value, "." + r.value)
    ensures r.Some? ==> forall j :: 0 <= j < |r.value| ==> r.value[j] != '.'
    ensures r.None? <==> (FileName(p).None? || FileName(p).value == ".." ||
                          forall i :: 0 < i < |FileName(p).value| ==> FileName(p).value[i] != '.')
  {
    match FileName(p)
    case None => None
    case Some(f) =>
      var e := SplitAtDot(f).1;
      assert e.Some? ==> EndsWith(f, "." + e.value) by {
        if e.Some? {
          var st := SplitAtDot(f).0;
          assert f == st + ("." + e.value);
        }
      }
      e
  }

  /** The index in the path right after the stem of its file name. */
  function StemEnd(p: string): (e: nat)
    requires FileName(p).Some?
    ensures e <= |p|
  {
    NameStart(TrimTail(p)) + |SplitAtDot(LastComponent(p)).0|
  }

  /**
   * `with_extension(ext)`: the path cut right after the stem of its file name,
   * then `.` and `ext` unless `ext` is empty; a path without a file name is
   * returned as it is.
   */
  function WithExtension(p: string, ext: string): (r: string)
    ensures FileName(p).None? ==> r == p
  {
    if FileName(p).None? then p
    else p[..StemEnd(p)] + (if ext == [] then [] else "." + ext)
  }

  /**
   * The path `backup_file` copies a page to; a path without a file name is
   * kept as it is (the rest is stated by `BackupIsHtml` and `BackupBeside`).
   */
  function BackupPath(p: string): (r: string)
    ensures FileName(p).None? ==> r == p
  {
    WithExtension(p, "src.html")
  }

  /** `eq_ignore_ascii_case`. */
  predicate EqIgnoreAsciiCase(a: string, b: string) {
    |a| == |b| && forall i :: 0 <= i < |a| ==> LowerChar(a[i]) == LowerChar(b[i])
  }

  /** Comparing without regard to ASCII case is comparing the lower-cased strings. */
  lemma EqIgnoreAsciiCaseLower(a: string, b: string)
    ensures EqIgnoreAsciiCase(a, b) <==> Lower(a) == Lower(b)
  {
    if Lower(a) == Lower(b) {
      assert |a| == |Lower(a)|;
      forall i | 0 <= i < |a| ensures LowerChar(a[i]) == LowerChar(b[i]) {
        assert Lower(a)[i] == Lower(b)[i];
      }
    }
  }

  /**
   * The filter of `find_html_files`: an extension equal to `html` in any
   * ASCII case, that is, one that lower-cases to `html`.
   */
  predicate IsHtmlFile(p: string)
    ensures IsHtmlFile(p) <==> Extension(p).Some? && Lower(Extension(p).value) == "html"
  {
    match Extension(p)
    case None => false
    case Some(e) =>
      EqIgnoreAsciiCaseLower(e, "html");
      LowerHtml();
      EqIgnoreAsciiCase(e, "html")
  }

  lemma LowerHtml()
    ensures Lower("html") == "html"
  {
    var l := Lower("html");
    assert l[0] == 'h' && l[1] == 't' && l[2] == 'm' && l[3] == 'l';
  }

  /** A file name with no dot after its first character is never picked up. */
  lemma NoDotNotHtml(p: string)
    requires FileName(p).Some?
    requires forall i :: 0 < i < |FileName(p).value| ==> FileName(p).value[i] != '.'
    ensures Extension(p).None? && !IsHtmlFile(p)
  {
  }

  /** The head of a path up to its file name is empty or ends with `/`. */
  lemma HeadEndsWithSlash(p: string)
    requires FileName(p).Some?
    ensures var n := NameStart(TrimTail(p));
      n <= |p| && (n == 0 || p[n - 1] == '/')
  {
    var t := TrimTail(p);
    var n := NameStart(t);
    if n > 0 {
      assert p[n - 1] == t[n - 1];
    }
  }

  /** A character that ends the head and is absent from the rest is last there. */
  lemma {:induction false} LastIndexOfJoin(head: string, rest: string, c: char)
    requires head != [] && head[|head| - 1] == c
    requires forall j :: 0 <= j < |rest| ==> rest[j] != c
    ensures LastIndexOf(head + rest, c) == Some(|head| - 1)
  {
    if rest == [] {
      assert head + rest == head;
    } else {
      var s := head + rest;
      assert s[|s| - 1] == rest[|rest| - 1];
      assert s[..|s| - 1] == head + rest[..|rest| - 1];
      LastIndexOfJoin(head, rest[..|rest| - 1], c);
    }
  }

  /** A path ending in a normal name ends with neither `/` nor `/.`. */
  lemma NoTrailingSeparator(head: string, name: string)
    requires name != [] && name != "."
    requires forall j :: 0 <= j < |name| ==> name[j] != '/'
    ensures !EndsWith(head + name, "/") && !EndsWith(head + name, "/.")
  {
    var r := head + name;
    assert r[|r| - 1] == name[|name| - 1];
    if |name| == 1 {
      assert name == [name[0]];
    } else {
      assert r[|r| - 2] == name[|name| - 2];
    }
  }

  /** A normal name after an empty head or one ending with `/` is the file name. */
  lemma {:induction false} FileNameOfJoin(head: string, name: string)
    requires head == [] || head[|head| - 1] == '/'
    requires name != [] && name != "." && name != ".."
    requires forall j :: 0 <= j < |name| ==> name[j] != '/'
    ensures FileName(head + name) == Some(name)
    ensures NameStart(TrimTail(head + name)) == |head|
  {
    var r := head + name;
    NoTrailingSeparator(head, name);
    assert TrimTail(r) == r;
    if head != [] {
      LastIndexOfJoin(head, name, '/');
    }
    assert NameStart(r) == |head|;
    assert r[|head|..] == name;
  }

  lemma SliceThroughStem(p: string, t: string, n: nat, stem: string)
    requires StartsWith(p, t) && n <= |t| && StartsWith(t[n..], stem)
    ensures n + |stem| <= |p| && p[..n + |stem|] == p[..n] + stem
  {
    assert p[..n + |stem|][n..] == t[n..][..|stem|];
  }

  /** The path up to the end of the stem is the head followed by the stem. */
  lemma CutAtStemEnd(p: string)
    requires FileName(p).Some?
    ensures var n := NameStart(TrimTail(p));
      n <= |p| && p[..StemEnd(p)] == p[..n] + SplitAtDot(FileName(p).value).0
  {
    var t := TrimTail(p);
    var n := NameStart(t);
    assert LastComponent(p) == t[n..];
    SliceThroughStem(p, t, n, SplitAtDot(LastComponent(p)).0);
  }

  /** `with_extension` keeps the head, then writes the stem, a dot and the extension. */
  lemma WithExtensionShape(p: string, ext: string)
    requires FileName(p).Some?
    requires ext != []
    ensures var n := NameStart(TrimTail(p));
      n <= |p| &&
      WithExtension(p, ext) == p[..n] + (SplitAtDot(FileName(p).value).0 + "." + ext)
  {
    CutAtStemEnd(p);
    AppendDotted(p[..NameStart(TrimTail(p))], SplitAtDot(FileName(p).value).0, ext);
  }

  lemma AppendDotted(head: string, stem: string, ext: string)
    ensures (head + stem) + ("." + ext) == head + (stem + "." + ext)
  {
  }

  /**
   * The file name after `with_extension`: the old stem, a dot and the new
   * extension, for any non-empty extension without a `/`.
   */
  lemma FileNameWithExtension(p: string, ext: string)
    requires FileName(p).Some?
    requires ext != [] && forall j :: 0 <= j < |ext| ==> ext[j] != '/'
    ensures FileName(WithExtension(p, ext)) == Some(SplitAtDot(FileName(p).value).0 + "." + ext)
  {
    var f := FileName(p).value;
    var stem := SplitAtDot(f).0;
    var name := stem + "." + ext;
    var n := NameStart(TrimTail(p));
    WithExtensionShape(p, ext);
    HeadEndsWithSlash(p);
    forall j | 0 <= j < |name| ensures name[j] != '/' {
      if j < |stem| {
        assert name[j] == f[j];
      } else if j > |stem| {
        assert name[j] == ext[j - |stem| - 1];
      }
    }
    FileNameOfJoin(p[..n], name);
  }

  /** Splitting a stem, a dot and a dot-free extension gives them back. */
  lemma SplitAtNewDot(stem: string, ext: string)
    requires stem != [] && ext != []
    requires forall j :: 0 <= j < |ext| ==> ext[j] != '.'
    ensures SplitAtDot(stem + "." + ext) == (stem, Some(ext))
  {
    var f := stem + "." + ext;
    assert f[|stem|] == '.';
    var d := LastIndexOf(f, '.').value;
    assert d == |stem|;
    assert f[..d] == stem;
    assert f[d + 1..] == ext;
  }

  /**
   * `with_extension` with a dot-free extension round-trips: the stem is kept
   * and the extension is the one given.
   */
  lemma WithExtensionRoundTrip(p: string, ext: string)
    requires FileName(p).Some?
    requires ext != []
    requires forall j :: 0 <= j < |ext| ==> ext[j] != '/' && ext[j] != '.'
    ensures Stem(WithExtension(p, ext)) == Stem(p)
    ensures Extension(WithExtension(p, ext)) == Some(ext)
  {
    FileNameWithExtension(p, ext);
    SplitAtNewDot(SplitAtDot(FileName(p).value).0, ext);
  }

  lemma DotAssoc(a: string, b: string, c: string)
    ensures a + "." + (b + "." + c) == (a + "." + b) + "." + c
  {
  }

  lemma NoSlashDotted(first: string, last: string)
    requires forall j :: 0 <= j < |first| ==> first[j] != '/'
    requires forall j :: 0 <= j < |last| ==> last[j] != '/'
    ensures forall j :: 0 <= j < |first + "." + last| ==> (first + "." + last)[j] != '/'
  {
    var ext := first + "." + last;
    forall j | 0 <= j < |ext| ensures ext[j] != '/' {
      if j < |first| {
        assert ext[j] == first[j];
      } else if j > |first| {
        assert ext[j] == last[j - |first| - 1];
      }
    }
  }

  /**
   * An extension with a dot in it moves its first part into the stem: only
   * what follows its last dot is read back as the extension.
   */
  lemma TwoPartExtension(p: string, first: string, last: string)
    requires FileName(p).Some?
    requires first != [] && forall j :: 0 <= j < |first| ==> first[j] != '/'
    requires last != [] && forall j :: 0 <= j < |last| ==> last[j] != '/' && last[j] != '.'
    ensures Stem(WithExtension(p, first + "." + last)) == Some(Stem(p).value + "." + first)
    ensures Extension(WithExtension(p, first + "." + last)) == Some(last)
  {
    NoSlashDotted(first, last);
    FileNameWithExtension(p, first + "." + last);
    DotAssoc(Stem(p).value, first, last);
    SplitAtNewDot(Stem(p).value + "." + first, last);
  }

  /**
   * The backup of a page keeps the stem with `.src` appended and has the
   * extension `html`, so the HTML filter picks backups up as pages too.
   */
  lemma BackupIsHtml(p: string)
    requires FileName(p).Some?
    ensures Stem(BackupPath(p)) == Some(Stem(p).value + ".src")
    ensures Extension(BackupPath(p)) == Some("html")
    ensures IsHtmlFile(BackupPath(p))
  {
    assert "src.html" == "src" + "." + "html";
    TwoPartExtension(p, "src", "html");
    DotSrc(Stem(p).value);
  }

  lemma DotSrc(a: string)
    ensures a + "." + "src" == a + ".src"
  {
  }

  /** The backup never overwrites the page it is made from. */
  lemma BackupDiffers(p: string)
    requires FileName(p).Some?
    ensures BackupPath(p) != p
  {
    BackupIsHtml(p);
  }

  /**
   * A file name whose only dot is its first character has no extension, so a
   * file named `.html` is not picked up by the filter.
   */
  lemma HiddenFileNoExtension(head: string, rest: string)
    requires head == [] || head[|head| - 1] == '/'
    requires rest != [] && forall j :: 0 <= j < |rest| ==> rest[j] != '/' && rest[j] != '.'
    ensures Extension(head + ("." + rest)) == None
    ensures !IsHtmlFile(head + ("." + rest))
  {
    var name := "." + rest;
    forall j | 0 <= j < |name| ensures name[j] != '/' {
      if j > 0 {
        assert name[j] == rest[j - 1];
      }
    }
    assert |name| >= 2 && name[1] == rest[0] != '.';
    FileNameOfJoin(head, name);
    LastIndexOfJoin(".", rest, '.');
  }

  /**
   * A file `stem.ext` with a dot-free extension: its stem and extension are
   * read back, and the filter takes it exactly when `ext` is `html` in some
   * ASCII case.
   */
  lemma StemAndExtension(head: string, stem: string, ext: string)
    requires head == [] || head[|head| - 1] == '/'
    requires stem != [] && forall j :: 0 <= j < |stem| ==> stem[j] != '/'
    requires ext != [] && forall j :: 0 <= j < |ext| ==> ext[j] != '/' && ext[j] != '.'
    ensures Stem(head + (stem + "." + ext)) == Some(stem)
    ensures Extension(head + (stem + "." + ext)) == Some(ext)
    ensures IsHtmlFile(head + (stem + "." + ext)) <==> EqIgnoreAsciiCase(ext, "html")
  {
    NoSlashDotted(stem, ext);
    FileNameOfJoin(head, stem + "." + ext);
    SplitAtNewDot(stem, ext);
  }

  /** The backup of `stem.ext` sits beside it as `stem.src.html`. */
  lemma BackupBeside(head: string, stem: string, ext: string)
    requires head == [] || head[|head| - 1] == '/'
    requires stem != [] && forall j :: 0 <= j < |stem| ==> stem[j] != '/'
    requires ext != [] && forall j :: 0 <= j < |ext| ==> ext[j] != '/' && ext[j] != '.'
    ensures BackupPath(head + (stem + "." + ext)) == head + (stem + ".src.html")
  {
    var p := head + (stem + "." + ext);
    NoSlashDotted(stem, ext);
    FileNameOfJoin(head, stem + "." + ext);
    SplitAtNewDot(stem, ext);
    WithExtensionShape(p, "src.html");
    assert p[..|head|] == head;
    DotSrcHtml(stem);
  }

  lemma DotSrcHtml(a: string)
    ensures a + "." + "src.html" == a + ".src.html"
  {
  }
}
