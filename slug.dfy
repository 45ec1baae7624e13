/**
 * The heading slug of `format_header_with_id_class`: the whole heading text,
 * lower-cased, every run of characters outside `[a-z0-9]` replaced by one
 * `-` (the pattern `[^a-z0-9]+`), `-` trimmed at both ends, then trailing
 * `-h1`, `-h2`, ..., `-h6` stripped in that order.
 */
module Slugs {
  import opened Text

  /** The characters the pattern `[^a-z0-9]+` leaves alone. */
  predicate IsSlugChar(c: char) {
    'a' <= c <= 'z' || '0' <= c <= '9'
  }

  /** The slug characters of `s`, in order. */
  function SlugChars(s: string): (r: string)
    ensures forall i :: 0 <= i < |r| ==> IsSlugChar(r[i])
  {
    if s == [] then []
    else if IsSlugChar(s[0]) then [s[0]] + SlugChars(s[1..])
    else SlugChars(s[1..])
  }

  /** A non-empty run of characters the pattern `[^a-z0-9]+` matches. */
  predicate IsRun(r: string) {
    r != [] && forall i :: 0 <= i < |r| ==> !IsSlugChar(r[i])
  }

  /** A non-empty word of slug characters. */
  predicate IsSlugWord(w: string) {
    w != [] && forall i :: 0 <= i < |w| ==> IsSlugChar(w[i])
  }

  /** Only slug characters and dashes. */
  predicate SlugAlphabet(s: string) {
    forall i :: 0 <= i < |s| ==> IsSlugChar(s[i]) || s[i] == '-'
  }

  predicate NoDoubleDash(s: string) {
    forall i :: 0 <= i < |s| - 1 ==> !(s[i] == '-' && s[i + 1] == '-')
  }

  /** The shape every slug has: slug characters and single dashes, never a dash at either end. */
  predicate WellFormed(s: string) {
    && SlugAlphabet(s)
    && NoDoubleDash(s)
    && (|s| > 0 ==> s[0] != '-' && s[|s| - 1] != '-')
  }

  /**
   * `regex.replace_all(s, "-")` for the pattern `[^a-z0-9]+`: each maximal
   * run of other characters becomes a single `-`. The result keeps exactly
   * the slug characters of `s`, in order, never holds two dashes in a row, and
   * starts (ends) with a dash exactly when `s` starts (ends) with a run.
   */
  function CollapseRuns(s: string): (r: string)
    ensures SlugAlphabet(r)
    ensures NoDoubleDash(r)
    ensures SlugChars(r) == SlugChars(s)
    ensures |r| > 0 <==> |s| > 0
    ensures |s| > 0 ==> r[0] == (if IsSlugChar(s[0]) then s[0] else '-')
    ensures |s| > 0 ==> r[|r| - 1] == (if IsSlugChar(s[|s| - 1]) then s[|s| - 1] else '-')
  {
    if s == [] then []
    else if IsSlugChar(s[0]) then [s[0]] + CollapseRuns(s[1..])
    else if |s| > 1 && !IsSlugChar(s[1]) then CollapseRuns(s[1..])
    else "-" + CollapseRuns(s[1..])
  }

  /** The collapse read off the first character: a slug character is kept, */
  lemma CollapseKeep(c: char, t: string)
    requires IsSlugChar(c)
    ensures CollapseRuns([c] + t) == [c] + CollapseRuns(t)
  {
    assert ([c] + t)[1..] == t;
  }

  /** another character followed by another one is absorbed into its run, */
  lemma CollapseAbsorb(c: char, t: string)
    requires !IsSlugChar(c) && t != [] && !IsSlugChar(t[0])
    ensures CollapseRuns([c] + t) == CollapseRuns(t)
  {
    assert ([c] + t)[1..] == t;
  }

  /** and the last character of a run becomes the run's dash. */
  lemma CollapseDash(c: char, t: string)
    requires !IsSlugChar(c) && (t == [] || IsSlugChar(t[0]))
    ensures CollapseRuns([c] + t) == "-" + CollapseRuns(t)
  {
    assert ([c] + t)[1..] == t;
  }

  /** Kept apart: next to a literal this costs the solver far more in a large context. */
  lemma PrependAssoc(h: string, a: string, b: string)
    ensures h + (a + b) == (h + a) + b
  {
  }

  /**
   * The collapse works piece by piece: cutting the text anywhere that is not
   * inside a run of other characters, the pieces collapse independently.
   */
  lemma {:induction false} CollapseAppend(u: string, v: string)
    requires u == [] || v == [] || IsSlugChar(u[|u| - 1]) || IsSlugChar(v[0])
    ensures CollapseRuns(u + v) == CollapseRuns(u) + CollapseRuns(v)
    decreases |u|
  {
    if u == [] {
      assert u + v == v;
    } else if v == [] {
      assert u + v == u;
    } else {
      var x := u[1..];
      assert u == [u[0]] + x;
      if x == [] {
        CollapseAppendOne(u[0], v);
      } else {
        assert x[|x| - 1] == u[|u| - 1];
        CollapseAppend(x, v);
        CollapseAppendStep(u[0], x, v);
      }
    }
  }

  /** The base case: one character, then text that a slug character starts or follows. */
  lemma CollapseAppendOne(c: char, v: string)
    requires v != [] && (IsSlugChar(c) || IsSlugChar(v[0]))
    ensures CollapseRuns([c] + v) == CollapseRuns([c]) + CollapseRuns(v)
  {
    assert [c] == [c] + [];
    if IsSlugChar(c) {
      CollapseKeep(c, v);
      CollapseKeep(c, []);
    } else {
      CollapseDash(c, v);
      CollapseDash(c, []);
    }
  }

  /** The inductive step: one more character in front of a cut that already works. */
  lemma CollapseAppendStep(c: char, x: string, v: string)
    requires x != [] && v != []
    requires CollapseRuns(x + v) == CollapseRuns(x) + CollapseRuns(v)
    ensures CollapseRuns(([c] + x) + v) == CollapseRuns([c] + x) + CollapseRuns(v)
  {
    var w := x + v;
    assert ([c] + x) + v == [c] + w;
    assert w[0] == x[0];
    var rx, rv := CollapseRuns(x), CollapseRuns(v);
    if IsSlugChar(c) {
      CollapseKeep(c, w);
      CollapseKeep(c, x);
      PrependAssoc([c], rx, rv);
    } else if !IsSlugChar(x[0]) {
      CollapseAbsorb(c, w);
      CollapseAbsorb(c, x);
    } else {
      CollapseDash(c, w);
      CollapseDash(c, x);
      PrependAssoc("-", rx, rv);
    }
  }

  /** A non-empty run of characters outside `[a-z0-9]` becomes a single `-`. */
  lemma {:induction false} CollapseRun(r: string)
    requires IsRun(r)
    ensures CollapseRuns(r) == "-"
    decreases |r|
  {
    if |r| > 1 {
      CollapseRun(r[1..]);
    }
  }

  /** Text made only of slug characters is left as it is. */
  lemma {:induction false} CollapseSlugChars(w: string)
    requires forall i :: 0 <= i < |w| ==> IsSlugChar(w[i])
    ensures CollapseRuns(w) == w
    decreases |w|
  {
    if w != [] {
      CollapseSlugChars(w[1..]);
    }
  }

  /**
   * A run of other characters, then a word of slug characters, then anything:
   * the run becomes a dash and the word is kept.
   */
  lemma CollapseRunThenWord(r: string, w: string, rest: string)
    requires IsRun(r) && IsSlugWord(w)
    ensures CollapseRuns(r + (w + rest)) == "-" + (w + CollapseRuns(rest))
  {
    CollapseAppend(w, rest);
    CollapseAppend(r, w + rest);
    CollapseRun(r);
    CollapseSlugChars(w);
  }

  /** Four words between five runs collapse to the words between five dashes. */
  lemma CollapseFourWords(r1: string, w1: string, r2: string, w2: string, r3: string,
                          w3: string, r4: string, w4: string, r5: string)
    requires IsRun(r1) && IsRun(r2) && IsRun(r3) && IsRun(r4) && IsRun(r5)
    requires IsSlugWord(w1) && IsSlugWord(w2) && IsSlugWord(w3) && IsSlugWord(w4)
    ensures CollapseRuns(r1 + (w1 + (r2 + (w2 + (r3 + (w3 + (r4 + (w4 + r5))))))))
         == "-" + (w1 + ("-" + (w2 + ("-" + (w3 + ("-" + (w4 + "-")))))))
  {
    CollapseRun(r5);
    CollapseRunThenWord(r4, w4, r5);
    CollapseRunThenWord(r3, w3, r4 + (w4 + r5));
    CollapseRunThenWord(r2, w2, r3 + (w3 + (r4 + (w4 + r5))));
    CollapseRunThenWord(r1, w1, r2 + (w2 + (r3 + (w3 + (r4 + (w4 + r5))))));
  }

  /** The collapse of the lower-cased example heading. */
  lemma CollapseHello(s: string)
    requires s == "<h1>hello, world!</h1>"
    ensures CollapseRuns(s) == "-h1-hello-world-h1-"
  {
    HelloSplit(s);
    HelloParts();
    CollapseFourWords("<", "h1", ">", "hello", ", ", "world", "!</", "h1", ">");
    HelloPieces();
  }

  lemma HelloSplit(s: string)
    requires s == "<h1>hello, world!</h1>"
    ensures s == "<" + ("h1" + (">" + ("hello" + (", " + ("world" + ("!</" + ("h1" + ">")))))))
  {
  }

  lemma HelloParts()
    ensures IsRun("<") && IsRun(">") && IsRun(", ") && IsRun("!</")
    ensures IsSlugWord("h1") && IsSlugWord("hello") && IsSlugWord("world")
  {
  }

  lemma HelloPieces()
    ensures "-" + ("h1" + ("-" + ("hello" + ("-" + ("world" + ("-" + ("h1" + "-"))))))) == "-h1-hello-world-h1-"
  {
  }

  /** `trim_start_matches('-')`: drops every leading dash and nothing else. */
  function TrimStartDashes(s: string): (r: string)
    ensures IsSuffix(r, s)
    ensures forall i :: 0 <= i < |s| - |r| ==> s[i] == '-'
    ensures |r| > 0 ==> r[0] != '-'
  {
    if |s| > 0 && s[0] == '-' then TrimStartDashes(s[1..]) else s
  }

  /** `trim_end_matches('-')`: drops every trailing dash and nothing else. */
  function TrimEndDashes(s: string): (r: string)
    ensures StartsWith(s, r)
    ensures forall i :: |r| <= i < |s| ==> s[i] == '-'
    ensures |r| > 0 ==> r[|r| - 1] != '-'
  {
    if |s| > 0 && s[|s| - 1] == '-' then TrimEndDashes(s[..|s| - 1]) else s
  }

  /** `r` is the piece of `s` at `k`, with only dashes before and after it. */
  predicate DashPadded(s: string, r: string, k: nat) {
    && k + |r| <= |s|
    && r == s[k..k + |r|]
    && (forall i :: 0 <= i < k ==> s[i] == '-')
    && (forall i :: k + |r| <= i < |s| ==> s[i] == '-')
  }

  /**
   * `trim_matches('-')`: a piece of `s` with only dashes cut off before and
   * after it, itself neither starting nor ending with one.
   */
  function TrimDashes(s: string): (r: string)
    ensures |r| > 0 ==> r[0] != '-' && r[|r| - 1] != '-'
    ensures exists k :: DashPadded(s, r, k)
  {
    var a := TrimStartDashes(s);
    var r := TrimEndDashes(a);
    var k := |s| - |a|;
    assert DashPadded(s, r, k) by {
      assert a == s[k..];
      forall i | k + |r| <= i < |s| ensures s[i] == '-' {
        assert s[i] == a[i - k];
      }
    }
    r
  }

  /** `t` is zero or more copies of `u` one after another. */
  predicate Copies(t: string, u: string)
    decreases |t|
  {
    t == [] || (|u| > 0 && EndsWith(t, u) && Copies(t[..|t| - |u|], u))
  }

  /**
   * `trim_end_matches(suffix)`: removes `suffix` from the end as long as it
   * is there; what is left is a prefix that no longer ends with it.
   */
  function TrimEndMatches(s: string, suffix: string): (r: string)
    requires |suffix| > 0
    decreases |s|
    ensures StartsWith(s, r)
    ensures !EndsWith(r, suffix)
  {
    if EndsWith(s, suffix) then TrimEndMatches(s[..|s| - |suffix|], suffix) else s
  }

  /** What `trim_end_matches` removes is a run of copies of the suffix. */
  lemma {:induction false} TrimEndMatchesRemovesCopies(s: string, suffix: string)
    requires |suffix| > 0
    decreases |s|
    ensures Copies(s[|TrimEndMatches(s, suffix)|..], suffix)
  {
    var r := TrimEndMatches(s, suffix);
    if EndsWith(s, suffix) {
      var s' := s[..|s| - |suffix|];
      assert r == TrimEndMatches(s', suffix);
      TrimEndMatchesRemovesCopies(s', suffix);
      var t := s[|r|..];
      assert t[|t| - |suffix|..] == s[|s| - |suffix|..];
      assert t[..|t| - |suffix|] == s'[|r|..];
    } else {
      assert s[|s|..] == [];
    }
  }

  /** The heading-level suffixes, stripped in this order. */
  function HeadingSuffix(level: nat): (r: string)
    requires 1 <= level <= 6
    ensures |r| == 3 && r[0] == '-' && r[1] == 'h' && r[2] != '-'
  {
    "-h" + [('0' as int + level) as char]
  }

  /**
   * Strips `-h1` ... `-h<level>` from the end, each in turn: what is left is
   * a prefix that no longer ends with the last suffix tried.
   */
  function StripHeadingSuffixes(s: string, level: nat): (r: string)
    requires level <= 6
    ensures StartsWith(s, r)
    ensures level > 0 ==> !EndsWith(r, HeadingSuffix(level))
  {
    if level == 0 then s
    else TrimEndMatches(StripHeadingSuffixes(s, level - 1), HeadingSuffix(level))
  }

  /**
   * The slug of a heading: the text that goes into both its `id` and its
   * `class`. Whatever the heading, it holds only `a`-`z`, `0`-`9` and single
   * dashes, with no dash at either end, and never ends with `-h6`.
   */
  function Slug(header: string): (r: string)
    ensures WellFormed(r)
    ensures !EndsWith(r, "-h6")
  {
    var collapsed := CollapseRuns(Lower(header));
    TrimDashesWellFormed(collapsed);
    StripWellFormed(TrimDashes(collapsed), 6);
    assert HeadingSuffix(6) == "-h6";
    StripHeadingSuffixes(TrimDashes(collapsed), 6)
  }

  /** A dash on each side of a text without end dashes is all that trimming removes. */
  lemma TrimDashesAround(w: string)
    requires w != [] && w[0] != '-' && w[|w| - 1] != '-'
    ensures TrimDashes("-" + w + "-") == w
  {
    var x := "-" + w + "-";
    assert x[1..] == w + "-";
    assert (w + "-")[..|w|] == w;
  }

  /** Once the strips from `from` on find nothing to remove, the result is settled. */
  lemma {:induction false} StripSettled(s: string, t: string, from: nat, level: nat)
    requires from <= level <= 6
    requires StripHeadingSuffixes(s, from) == t
    requires forall k :: from < k <= level ==> !EndsWith(t, HeadingSuffix(k))
    ensures StripHeadingSuffixes(s, level) == t
  {
    if level > from {
      StripSettled(s, t, from, level - 1);
      StripLevelKeeps(s, level);
    }
  }

  /** A text not ending with a digit loses a single trailing `-h1` and nothing more. */
  lemma StripWordH1(w: string)
    requires w != [] && !('0' <= w[|w| - 1] <= '9')
    ensures StripHeadingSuffixes(w + "-h1", 6) == w
  {
    var x := w + "-h1";
    assert HeadingSuffix(1) == "-h1";
    assert EndsWith(x, "-h1");
    assert x[..|x| - 3] == w;
    assert !EndsWith(w, "-h1");
    assert TrimEndMatches(x, "-h1") == TrimEndMatches(w, "-h1") == w;
    assert StripHeadingSuffixes(x, 1) == w;
    forall k | 1 < k <= 6 ensures !EndsWith(w, HeadingSuffix(k)) {
      assert HeadingSuffix(k)[2] != w[|w| - 1];
    }
    StripSettled(x, w, 1, 6);
  }

  /**
   * The example heading `<h1>Hello, world!</h1>` (tags and all, as the
   * heading text is given) has the slug `h1-hello-world`: the slug is made
   * from the whole heading, and only the trailing `-h1` of the closing tag is
   * stripped.
   */
  lemma SlugHello(s: string)
    requires s == "<h1>Hello, world!</h1>"
    ensures Slug(s) == "h1-hello-world"
  {
    LowerHello(s);
    CollapseHello(Lower(s));
    var w := "h1-hello-world";
    HelloTrimmed(w);
    TrimDashesAround(w + "-h1");
    StripWordH1(w);
  }

  lemma LowerHello(s: string)
    requires s == "<h1>Hello, world!</h1>"
    ensures Lower(s) == "<h1>hello, world!</h1>"
  {
  }

  lemma HelloTrimmed(w: string)
    requires w == "h1-hello-world"
    ensures "-h1-hello-world-h1-" == "-" + (w + "-h1") + "-"
    ensures (w + "-h1")[0] != '-' && w[|w| - 1] == 'd'
  {
  }

  /** Any piece of a string keeps its alphabet and its lack of double dashes. */
  lemma SliceKeepsShape(s: string, lo: nat, hi: nat)
    requires lo <= hi <= |s|
    requires SlugAlphabet(s) && NoDoubleDash(s)
    ensures SlugAlphabet(s[lo..hi]) && NoDoubleDash(s[lo..hi])
  {
    var t := s[lo..hi];
    forall i | 0 <= i < |t| ensures t[i] == s[lo + i] {
    }
  }

  lemma {:induction false} TrimDashesWellFormed(s: string)
    requires SlugAlphabet(s) && NoDoubleDash(s)
    ensures WellFormed(TrimDashes(s))
  {
    var a := TrimStartDashes(s);
    var b := TrimEndDashes(a);
    var lo := |s| - |a|;
    assert b == s[lo..lo + |b|] by {
      assert a == s[lo..];
      assert b == a[..|b|];
    }
    SliceKeepsShape(s, lo, lo + |b|);
    if |b| > 0 {
      assert b[0] == a[0];
    }
  }

  /**
   * Removing a `-hN` suffix from a well-formed slug leaves a well-formed
   * slug: the character before the removed dash is not a dash.
   */
  lemma {:induction false} TrimSuffixWellFormed(s: string, suffix: string)
    requires WellFormed(s)
    requires |suffix| == 3 && suffix[0] == '-' && suffix[2] != '-'
    ensures WellFormed(TrimEndMatches(s, suffix))
    decreases |s|
  {
    if EndsWith(s, suffix) {
      var t := s[..|s| - 3];
      if |t| > 0 {
        assert s[|t|] == '-';
        assert t[|t| - 1] == s[|t| - 1];
      }
      TrimSuffixWellFormed(t, suffix);
    }
  }

  lemma {:induction false} StripWellFormed(s: string, level: nat)
    requires level <= 6
    requires WellFormed(s)
    ensures WellFormed(StripHeadingSuffixes(s, level))
  {
    if level > 0 {
      StripWellFormed(s, level - 1);
      TrimSuffixWellFormed(StripHeadingSuffixes(s, level - 1), HeadingSuffix(level));
    }
  }

  /** A string that does not end with `-h<level>` is left alone by that strip. */
  lemma StripLevelKeeps(s: string, level: nat)
    requires 1 <= level <= 6
    requires !EndsWith(StripHeadingSuffixes(s, level - 1), HeadingSuffix(level))
    ensures StripHeadingSuffixes(s, level) == StripHeadingSuffixes(s, level - 1)
  {
  }

  /** A string ending in one three-character suffix ends in another exactly when they are equal. */
  lemma EndsWithSameLength(w: string, a: string, b: string)
    requires |a| == |b|
    ensures EndsWith(w + a, b) <==> a == b
  {
    assert (w + a)[|w + a| - |b|..] == a;
  }

  /** The first two strips turn `w-h1-h2` into `w-h1`. */
  lemma StripFirstTwo(w: string)
    ensures StripHeadingSuffixes(w + "-h1" + "-h2", 2) == w + "-h1"
  {
    var u := w + "-h1";
    var s := u + "-h2";
    assert HeadingSuffix(1) == "-h1" && HeadingSuffix(2) == "-h2";
    EndsWithSameLength(u, "-h2", "-h1");
    assert StripHeadingSuffixes(s, 1) == s;
    EndsWithSameLength(u, "-h2", "-h2");
    assert s[..|s| - 3] == u;
    EndsWithSameLength(w, "-h1", "-h2");
    assert TrimEndMatches(u, "-h2") == u;
  }

  /** Once the string ends with `-h1`, the later strips leave it alone. */
  lemma {:induction false} StripKeepsH1(s: string, w: string, level: nat)
    requires 2 <= level <= 6
    requires StripHeadingSuffixes(s, 2) == w + "-h1"
    ensures StripHeadingSuffixes(s, level) == w + "-h1"
  {
    if level > 2 {
      StripKeepsH1(s, w, level - 1);
      assert HeadingSuffix(level)[2] != '1';
      EndsWithSameLength(w, "-h1", HeadingSuffix(level));
      StripLevelKeeps(s, level);
    }
  }

  /**
   * The suffixes are stripped in a fixed order, so a `-h1` that only becomes
   * the end after `-h2` is removed stays.
   */
  lemma StripOrder(w: string)
    ensures StripHeadingSuffixes(w + "-h1" + "-h2", 6) == w + "-h1"
  {
    StripFirstTwo(w);
    StripKeepsH1(w + "-h1" + "-h2", w, 6);
  }
}
