/**
 * `format_header_with_id_class`: copies a heading's HTML character by
 * character and splices in at most one ` id="<slug>"` (before the first space
 * met inside a tag) and at most one ` class="<slug>"` (before the first `>`
 * that closes a tag). The flags that record both insertions are never reset,
 * so later tags receive nothing.
 */
module Header {
  import opened Wrappers
  import opened Text
  import opened Slugs

  function IdAttr(slug: string): string {
    " id=\"" + slug + "\""
  }

  function ClassAttr(slug: string): string {
    " class=\"" + slug + "\""
  }

  /** The `<` at `j` has not been followed by a `>` before position `i`. */
  predicate OpenSince(s: string, j: nat, i: nat)
    requires j < i <= |s|
  {
    s[j] == '<' && forall m :: j < m < i ==> s[m] != '>'
  }

  /**
   * A tag is open just before position `i`: some `<` before `i` has not been
   * followed by a `>` since. Equivalently, the last of `<` and `>` before `i`
   * is a `<`.
   */
  predicate InTag(s: string, i: nat)
    requires i <= |s|
  {
    exists j :: 0 <= j < i && OpenSince(s, j, i)
  }

  /** How reading character `s[i]` moves between "outside" and "inside a tag". */
  lemma InTagStep(s: string, i: nat)
    requires i < |s|
    ensures InTag(s, i + 1) <==> s[i] == '<' || (s[i] != '>' && InTag(s, i))
  {
    if s[i] == '<' {
      assert OpenSince(s, i, i + 1);
    } else if s[i] != '>' && InTag(s, i) {
      var j :| 0 <= j < i && OpenSince(s, j, i);
      assert OpenSince(s, j, i + 1);
    } else {
      var k := i + 1;
      forall j | 0 <= j < k ensures !OpenSince(s, j, k) {
        if j < i && s[i] != '>' {
          assert !OpenSince(s, j, i);
        }
      }
    }
  }

  /** Position `i` holds `c` and a tag is open there. */
  predicate IsSlot(s: string, c: char, i: nat) {
    i < |s| && s[i] == c && InTag(s, i)
  }

  /** The first slot for `c` at or after `from`, if any. */
  function FirstSlot(s: string, c: char, from: nat): (r: Option<nat>)
    requires from <= |s|
    decreases |s| - from
    ensures r.Some? ==> from <= r.value < |s|
  {
    if from == |s| then None
    else if IsSlot(s, c, from) then Some(from)
    else FirstSlot(s, c, from + 1)
  }

  /** `FirstSlot` finds a slot, and no slot comes before it. */
  lemma {:induction false} FirstSlotIsFirst(s: string, c: char, from: nat)
    requires from <= |s|
    decreases |s| - from
    ensures FirstSlot(s, c, from).Some? ==> IsSlot(s, c, FirstSlot(s, c, from).value)
    ensures FirstSlot(s, c, from).Some? ==> forall j :: from <= j < FirstSlot(s, c, from).value ==> !IsSlot(s, c, j)
    ensures FirstSlot(s, c, from).None? ==> forall j :: from <= j ==> !IsSlot(s, c, j)
  {
    if from < |s| && !IsSlot(s, c, from) {
      FirstSlotIsFirst(s, c, from + 1);
    }
  }

  /** Where the id attribute goes: the first space inside a tag. */
  function IdSlot(s: string): Option<nat> {
    FirstSlot(s, ' ', 0)
  }

  /** Where the class attribute goes: the first `>` that closes a tag. */
  function ClassSlot(s: string): Option<nat> {
    FirstSlot(s, '>', 0)
  }

  /** What input character `i` turns into: the attributes due at `i`, then the character itself. */
  function Piece(s: string, i: nat, id: Option<nat>, cls: Option<nat>, slug: string): string
    requires i < |s|
  {
    (if id == Some(i) then IdAttr(slug) else [])
    + (if cls == Some(i) then ClassAttr(slug) else [])
    + [s[i]]
  }

  /** The output once the first `k` input characters have been read, given where the attributes go. */
  function Emitted(s: string, k: nat, id: Option<nat>, cls: Option<nat>, slug: string): string
    requires k <= |s|
  {
    if k == 0 then [] else Emitted(s, k - 1, id, cls, slug) + Piece(s, k - 1, id, cls, slug)
  }

  /** The rewritten heading. */
  function Formatted(s: string): string {
    Emitted(s, |s|, IdSlot(s), ClassSlot(s), Slug(s))
  }

  /** The first slot is at `i` exactly when `i` is a slot and none came before. */
  lemma FirstSlotAt(s: string, c: char, i: nat, found: bool)
    requires i < |s|
    requires found == (FirstSlot(s, c, 0).Some? && FirstSlot(s, c, 0).value < i)
    ensures FirstSlot(s, c, 0) == Some(i) <==> !found && IsSlot(s, c, i)
  {
    FirstSlotIsFirst(s, c, 0);
  }

  lemma AppendPiece(before: string, x: string, y: string, c: char)
    ensures before + x + y + [c] == before + (x + y + [c])
  {
  }

  /**
   * The rewrite: the slug depends only on the whole heading, so it is
   * computed once and handed to the character loop.
   */
  method FormatHeaderWithIdClass(header: string) returns (formatted: string)
    ensures formatted == Formatted(header)
  {
    var slug := Slug(header);
    formatted := InsertAttributes(header, slug);
  }

  /** The character loop of the original, with its three flags. */
  method InsertAttributes(header: string, slug: string) returns (formatted: string)
    ensures formatted == Emitted(header, |header|, IdSlot(header), ClassSlot(header), slug)
  {
    ghost var id, cls := IdSlot(header), ClassSlot(header);
    formatted := [];
    var inHeaderTag, idAttributeAdded, classAttributeAdded := false, false, false;
    for i := 0 to |header|
      invariant formatted == Emitted(header, i, id, cls, slug)
      invariant inHeaderTag == InTag(header, i)
      invariant idAttributeAdded == (id.Some? && id.value < i)
      invariant classAttributeAdded == (cls.Some? && cls.value < i)
    {
      var c := header[i];
      assert InTag(header, i + 1) <==> c == '<' || (c != '>' && inHeaderTag) by {
        InTagStep(header, i);
      }
      assert id == Some(i) <==> inHeaderTag && !idAttributeAdded && c == ' ' by {
        FirstSlotAt(header, ' ', i, idAttributeAdded);
      }
      assert cls == Some(i) <==> inHeaderTag && !classAttributeAdded && c == '>' by {
        FirstSlotAt(header, '>', i, classAttributeAdded);
      }
      ghost var before := formatted;
      ghost var idPart := if id == Some(i) then IdAttr(slug) else [];
      ghost var classPart := if cls == Some(i) then ClassAttr(slug) else [];
      EmittedStep(header, i, id, cls, slug);
      if !inHeaderTag {
        formatted := formatted + [c];
        if c == '<' {
          inHeaderTag := true;
        }
        assert Piece(header, i, id, cls, slug) == [c];
      } else {
        if !idAttributeAdded && c == ' ' {
          formatted := formatted + IdAttr(slug);
          idAttributeAdded := true;
        }
        assert formatted == before + idPart;
        if !classAttributeAdded && c == '>' {
          formatted := formatted + ClassAttr(slug);
          classAttributeAdded := true;
        }
        assert formatted == before + idPart + classPart;
        formatted := formatted + [c];
        if c == '>' {
          inHeaderTag := false;
        }
        AppendPiece(before, idPart, classPart, c);
      }
    }
  }

  /** `s` with `text` inserted before position `p`, or `s` itself when there is no position. */
  function Insert(s: string, p: Option<nat>, text: string): (r: string)
    ensures p.Some? && p.value <= |s| ==> |r| == |s| + |text|
  {
    if p.Some? && p.value <= |s| then s[..p.value] + text + s[p.value..] else s
  }

  /** The slot `o`, if any, lies outside the positions `a` .. `b - 1`. */
  predicate Outside(o: Option<nat>, a: nat, b: nat) {
    o.None? || o.value < a || b <= o.value
  }

  /** Characters where no attribute is due are copied unchanged. */
  lemma {:induction false} EmittedCopies(s: string, a: nat, b: nat, id: Option<nat>, cls: Option<nat>, slug: string)
    requires a <= b <= |s|
    requires Outside(id, a, b) && Outside(cls, a, b)
    ensures Emitted(s, b, id, cls, slug) == Emitted(s, a, id, cls, slug) + s[a..b]
    decreases b - a
  {
    if a < b {
      EmittedCopies(s, a, b - 1, id, cls, slug);
      assert Piece(s, b - 1, id, cls, slug) == [s[b - 1]];
      assert s[a..b] == s[a..b - 1] + [s[b - 1]];
    }
  }

  /** Sequence bookkeeping for a single insertion. */
  lemma OneInsertion(s: string, p: nat, a: string, before: string, through: string, all: string)
    requires p < |s|
    requires before == s[0..p]
    requires through == before + (a + [s[p]])
    requires all == through + s[p + 1..|s|]
    ensures all == s[..p] + a + s[p..]
  {
    assert [s[p]] + s[p + 1..|s|] == s[p..];
  }

  /** Sequence bookkeeping for two insertions. */
  lemma TwoInsertions(s: string, p: nat, q: nat, a: string, b: string,
                      beforeP: string, throughP: string, beforeQ: string, throughQ: string, all: string)
    requires p < q < |s|
    requires beforeP == s[0..p]
    requires throughP == beforeP + (a + [s[p]])
    requires beforeQ == throughP + s[p + 1..q]
    requires throughQ == beforeQ + (b + [s[q]])
    requires all == throughQ + s[q + 1..|s|]
    ensures all == s[..p] + a + s[p..q] + b + s[q..]
  {
    assert [s[p]] + s[p + 1..q] == s[p..q];
    assert [s[q]] + s[q + 1..|s|] == s[q..];
  }

  /** Emitting the character at `p` adds its piece. */
  lemma EmittedStep(s: string, p: nat, id: Option<nat>, cls: Option<nat>, slug: string)
    requires p < |s|
    ensures Emitted(s, p + 1, id, cls, slug) == Emitted(s, p, id, cls, slug) + Piece(s, p, id, cls, slug)
  {
  }

  /** With two slots `p < q` carrying `a` and `b`, the output is the input with both inserted. */
  lemma {:induction false} EmittedTwoSlots(s: string, p: nat, q: nat, id: Option<nat>, cls: Option<nat>, slug: string,
                                           a: string, b: string)
    requires p < q < |s|
    requires Outside(id, 0, p) && Outside(cls, 0, p)
    requires Outside(id, p + 1, q) && Outside(cls, p + 1, q)
    requires Outside(id, q + 1, |s|) && Outside(cls, q + 1, |s|)
    requires Piece(s, p, id, cls, slug) == a + [s[p]]
    requires Piece(s, q, id, cls, slug) == b + [s[q]]
    ensures Emitted(s, |s|, id, cls, slug) == s[..p] + a + s[p..q] + b + s[q..]
  {
    EmittedCopies(s, 0, p, id, cls, slug);
    EmittedStep(s, p, id, cls, slug);
    EmittedCopies(s, p + 1, q, id, cls, slug);
    EmittedStep(s, q, id, cls, slug);
    EmittedCopies(s, q + 1, |s|, id, cls, slug);
    TwoInsertions(s, p, q, a, b, Emitted(s, p, id, cls, slug), Emitted(s, p + 1, id, cls, slug), Emitted(s, q, id, cls, slug),
                  Emitted(s, q + 1, id, cls, slug), Emitted(s, |s|, id, cls, slug));
  }

  /** With one slot `p` carrying `a`, the output is the input with it inserted. */
  lemma {:induction false} EmittedOneSlot(s: string, p: nat, id: Option<nat>, cls: Option<nat>, slug: string, a: string)
    requires p < |s|
    requires Outside(id, 0, p) && Outside(cls, 0, p)
    requires Outside(id, p + 1, |s|) && Outside(cls, p + 1, |s|)
    requires Piece(s, p, id, cls, slug) == a + [s[p]]
    ensures Emitted(s, |s|, id, cls, slug) == s[..p] + a + s[p..]
  {
    EmittedCopies(s, 0, p, id, cls, slug);
    EmittedStep(s, p, id, cls, slug);
    EmittedCopies(s, p + 1, |s|, id, cls, slug);
    OneInsertion(s, p, a, Emitted(s, p, id, cls, slug), Emitted(s, p + 1, id, cls, slug), Emitted(s, |s|, id, cls, slug));
  }

  lemma InsertTwice(s: string, p: nat, q: nat, a: string, b: string)
    requires p < q <= |s|
    ensures Insert(Insert(s, Some(q), b), Some(p), a) == s[..p] + a + s[p..q] + b + s[q..]
  {
    var t := s[..q] + b + s[q..];
    assert t[..p] == s[..p];
    assert t[p..] == s[p..q] + b + s[q..];
  }

  /**
   * Nothing is lost: the output is the input with the id attribute inserted
   * at its slot and the class attribute inserted at its slot (each at most
   * once), both carrying the same slug. Deleting them gives the input back.
   */
  lemma {:induction false} FormattedIsInsertion(s: string)
    ensures IdSlot(s).Some? && ClassSlot(s).Some? && ClassSlot(s).value < IdSlot(s).value ==>
      Formatted(s) == Insert(Insert(s, IdSlot(s), IdAttr(Slug(s))), ClassSlot(s), ClassAttr(Slug(s)))
    ensures !(IdSlot(s).Some? && ClassSlot(s).Some? && ClassSlot(s).value < IdSlot(s).value) ==>
      Formatted(s) == Insert(Insert(s, ClassSlot(s), ClassAttr(Slug(s))), IdSlot(s), IdAttr(Slug(s)))
  {
    EmittedIsInsertion(s, Slug(s));
  }

  /** `FormattedIsInsertion` for any slug. */
  lemma {:induction false} EmittedIsInsertion(s: string, slug: string)
    ensures IdSlot(s).Some? && ClassSlot(s).Some? && ClassSlot(s).value < IdSlot(s).value ==>
      Emitted(s, |s|, IdSlot(s), ClassSlot(s), slug)
        == Insert(Insert(s, IdSlot(s), IdAttr(slug)), ClassSlot(s), ClassAttr(slug))
    ensures !(IdSlot(s).Some? && ClassSlot(s).Some? && ClassSlot(s).value < IdSlot(s).value) ==>
      Emitted(s, |s|, IdSlot(s), ClassSlot(s), slug)
        == Insert(Insert(s, ClassSlot(s), ClassAttr(slug)), IdSlot(s), IdAttr(slug))
  {
    var id, cls := IdSlot(s), ClassSlot(s);
    var I, C := IdAttr(slug), ClassAttr(slug);
    FirstSlotIsFirst(s, ' ', 0);
    FirstSlotIsFirst(s, '>', 0);
    if id.Some? && cls.Some? {
      var p, q := id.value, cls.value;
      assert s[p] == ' ' && s[q] == '>';
      assert Piece(s, p, id, cls, slug) == I + [s[p]];
      assert Piece(s, q, id, cls, slug) == C + [s[q]];
      if p < q {
        EmittedTwoSlots(s, p, q, id, cls, slug, I, C);
        InsertTwice(s, p, q, I, C);
      } else {
        EmittedTwoSlots(s, q, p, id, cls, slug, C, I);
        InsertTwice(s, q, p, C, I);
      }
    } else if id.Some? {
      assert Piece(s, id.value, id, cls, slug) == I + [s[id.value]];
      EmittedOneSlot(s, id.value, id, cls, slug, I);
    } else if cls.Some? {
      assert Piece(s, cls.value, id, cls, slug) == C + [s[cls.value]];
      EmittedOneSlot(s, cls.value, id, cls, slug, C);
    } else {
      EmittedCopies(s, 0, |s|, id, cls, slug);
      assert s[0..|s|] == s;
    }
  }

  /** A string without `<` opens no tag, so it comes back unchanged. */
  lemma NoTagUnchanged(s: string)
    requires forall i :: 0 <= i < |s| ==> s[i] != '<'
    ensures Formatted(s) == s
  {
    FirstSlotIsFirst(s, ' ', 0);
    FirstSlotIsFirst(s, '>', 0);
    EmittedIsInsertion(s, Slug(s));
  }

  /**
   * The class attribute goes before the first `>` that follows the first
   * `<`; there is none when the input has no `<`, or no `>` after it.
   */
  lemma {:induction false} ClassBeforeFirstClose(s: string, f: nat)
    requires f < |s| && s[f] == '<'
    requires forall j :: 0 <= j < f ==> s[j] != '<'
    ensures ClassSlot(s) == FindFrom(s, ">", f + 1)
  {
    var g := FindFrom(s, ">", f + 1);
    FirstSlotIsFirst(s, '>', 0);
    forall j | 0 <= j <= f ensures !IsSlot(s, '>', j) {
      if j < f {
        assert !InTag(s, j);
      }
    }
    if g.Some? {
      assert s[g.value..g.value + 1] == ">";
      forall j | f < j < g.value ensures !IsSlot(s, '>', j) {
        assert !OccursAt(s, ">", j);
        assert s[j..j + 1] == [s[j]];
      }
      forall m | f < m < g.value ensures s[m] != '>' {
        assert !OccursAt(s, ">", m);
        assert s[m..m + 1] == [s[m]];
      }
      assert OpenSince(s, f, g.value);
      assert IsSlot(s, '>', g.value);
    } else {
      forall j | f < j < |s| ensures !IsSlot(s, '>', j) {
        assert !OccursAt(s, ">", j);
        assert s[j..j + 1] == [s[j]];
      }
    }
  }

  /**
   * With the first `<` at `f`, the first `>` after it at `g`, and a space
   * between them, the id attribute goes before the first such space.
   */
  lemma {:induction false} IdInFirstTag(s: string, f: nat, g: nat, p: nat)
    requires f < p < g < |s| && s[f] == '<' && s[g] == '>' && s[p] == ' '
    requires forall j :: 0 <= j < f ==> s[j] != '<'
    requires forall j :: f < j < g ==> s[j] != '>'
    requires forall j :: f < j < p ==> s[j] != ' '
    ensures IdSlot(s) == Some(p)
  {
    forall j | 0 <= j < p ensures !IsSlot(s, ' ', j) {
      if j < f {
        assert !InTag(s, j);
      }
    }
    assert OpenSince(s, f, p);
    assert IsSlot(s, ' ', p);
    FirstSlotIsFirst(s, ' ', 0);
  }

  /** The repository's example heading has no space inside a tag. */
  lemma HelloWorldNoIdSlot(s: string)
    requires s == "<h1>Hello, world!</h1>"
    ensures IdSlot(s) == None
  {
    FirstSlotIsFirst(s, ' ', 0);
    forall j | 0 <= j < |s| ensures !IsSlot(s, ' ', j) {
      if j == 10 {
        forall k | 0 <= k < 10 ensures !OpenSince(s, k, 10) {
          if k == 0 {
            assert s[3] == '>';
          }
        }
      }
    }
  }

  /** The repository's example heading takes its class before the `>` of `<h1>`. */
  lemma HelloWorldClassSlot(s: string)
    requires s == "<h1>Hello, world!</h1>"
    ensures ClassSlot(s) == Some(3)
  {
    ClassBeforeFirstClose(s, 0);
    assert s[1..2] == "h" && s[2..3] == "1" && s[3..4] == ">";
    assert !OccursAt(s, ">", 1) && !OccursAt(s, ">", 2) && OccursAt(s, ">", 3);
  }

  /**
   * The heading of the repository's own example gets a class before its
   * first `>` and, having no space inside a tag, no id; its slug is
   * `h1-hello-world`.
   */
  lemma HelloWorldHeading(s: string)
    requires s == "<h1>Hello, world!</h1>"
    ensures Formatted(s) == "<h1" + ClassAttr("h1-hello-world") + ">Hello, world!</h1>"
  {
    HelloWorldNoIdSlot(s);
    HelloWorldClassSlot(s);
    EmittedIsInsertion(s, Slug(s));
    assert s[..3] == "<h1" && s[3..] == ">Hello, world!</h1>";
    SlugHello(s);
  }
}
