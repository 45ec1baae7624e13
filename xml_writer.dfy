/**
 * `write_element`: the helper that emits one RSS/XML element into the
 * writer's output buffer, skipping elements whose value is empty.
 */
module XmlWriter {
  import opened Wrappers
  import opened Text

  /**
   * The local part of a qualified name: what follows its first `:`, or the
   * whole name when it has no prefix.
   */
  function LocalName(name: string): (r: string)
    ensures IsSuffix(r, name)
  {
    match Find(name, ":")
    case None => name
    case Some(i) => name[i + 1..]
  }

  /** Exactly the text after the first `:` is kept. */
  lemma LocalNameAfterFirstColon(name: string)
    ensures (forall i :: 0 <= i < |name| ==> name[i] != ':') ==> LocalName(name) == name
    ensures (exists i :: 0 <= i < |name| && name[i] == ':') ==>
              var r := LocalName(name);
              |r| < |name| && name[|name| - |r| - 1] == ':' &&
              forall i :: 0 <= i < |name| - |r| - 1 ==> name[i] != ':'
  {
    match Find(name, ":")
    case None =>
      forall i | 0 <= i < |name| ensures name[i] != ':' {
        assert !OccursAt(name, ":", i);
        assert name[i..i + 1] == [name[i]];
      }
    case Some(i) =>
      forall j | 0 <= j < i ensures name[j] != ':' {
        assert !OccursAt(name, ":", j);
        assert name[j..j + 1] == [name[j]];
      }
      assert name[i..i + 1] == ":";
      assert name[i] == ':';
  }

  function StartTag(name: string): (t: string)
    ensures |t| == |name| + 2 && t[0] == '<' && t[1..|name| + 1] == name && t[|name| + 1] == '>'
  {
    "<" + name + ">"
  }

  function EndTag(name: string): string {
    "</" + name + ">"
  }

  /**
   * The start tag, the value as given (it is marked as already escaped), and
   * the end tag of the local name: nothing exactly when the value is empty,
   * and otherwise the value verbatim right after the start tag.
   */
  function Element(name: string, value: string): (r: string)
    ensures r == [] <==> value == []
    ensures value != [] ==> |name| + 2 + |value| <= |r| && r[|name| + 2..|name| + 2 + |value|] == value
  {
    if value == [] then []
    else
      var r := StartTag(name) + value + EndTag(LocalName(name));
      assert r[|name| + 2..|name| + 2 + |value|] == value;
      r
  }

  /** An XML writer over an in-memory buffer. */
  class Writer {
    var output: string

    constructor()
      ensures output == []
    {
      output := [];
    }

    /**
     * Writes the start event, the text event and the end event of one
     * element, or nothing when the value is empty.
     */
    method WriteElement(name: string, value: string)
      modifies this
      ensures output == old(output) + Element(name, value)
    {
      if value != [] {
        var localName := LocalName(name);
        output := output + StartTag(name);
        output := output + value;
        output := output + EndTag(localName);
      }
    }
  }

  /** Reads back the name and the value of an element: the inverse of `Element`. */
  function ParseElement(r: string): (p: Option<(string, string)>)
    ensures p.Some? ==> p.value.1 != []
  {
    if |r| == 0 || r[0] != '<' then None
    else
      match Find(r, ">")
      case None => None
      case Some(i) =>
        if i == 0 then None
        else
          var name := r[1..i];
          var closing := EndTag(LocalName(name));
          if i + 1 + |closing| < |r| && EndsWith(r, closing) then
            Some((name, r[i + 1..|r| - |closing|]))
          else None
  }

  /** An empty value writes nothing. */
  lemma EmptyValueSkipped(name: string)
    ensures Element(name, "") == ""
  {
  }

  /** Without a prefix the element closes with its own name. */
  lemma UnprefixedBalanced(name: string, value: string)
    requires forall i :: 0 <= i < |name| ==> name[i] != ':'
    requires value != []
    ensures Element(name, value) == StartTag(name) + value + EndTag(name)
  {
    LocalNameAfterFirstColon(name);
  }

  /** A prefixed name closes with only its local part. */
  lemma PrefixedClosesLocal(prefix: string, local: string, value: string)
    requires forall i :: 0 <= i < |prefix| ==> prefix[i] != ':'
    requires value != []
    ensures Element(prefix + ":" + local, value) == StartTag(prefix + ":" + local) + value + EndTag(local)
  {
    var name := prefix + ":" + local;
    assert name[|prefix|] == ':';
    var r := LocalName(name);
    LocalNameAfterFirstColon(name);
    assert r == name[|prefix| + 1..] == local;
  }

  /**
   * Every non-empty element is read back as the name and value it was written
   * from, as long as the name has no `>`: the value is carried verbatim.
   */
  lemma {:induction false} ParseElementInverse(name: string, value: string)
    requires forall i :: 0 <= i < |name| ==> name[i] != '>'
    requires value != []
    ensures ParseElement(Element(name, value)) == Some((name, value))
  {
    var st := StartTag(name);
    var closing := EndTag(LocalName(name));
    var r := Element(name, value);
    assert r == st + (value + closing) && r[..|st|] == st && r[|st|..|r| - |closing|] == value && r[|r| - |closing|..] == closing;
    StartTagFirstClose(name, value + closing);
    assert r[1..|name| + 1] == r[..|st|][1..|name| + 1];
  }

  /** The first `>` after a start tag's `<` is the one that closes it. */
  lemma StartTagFirstClose(name: string, rest: string)
    requires forall i :: 0 <= i < |name| ==> name[i] != '>'
    ensures Find(StartTag(name) + rest, ">") == Some(|name| + 1)
  {
    var st := StartTag(name);
    var r := st + rest;
    assert OccursAt(r, ">", |name| + 1) by {
      assert r[|name| + 1..|name| + 2] == st[|name| + 1..];
    }
    forall j: nat | j < |name| + 1 ensures !OccursAt(r, ">", j) {
      assert r[j..j + 1] == st[j..j + 1];
      if j > 0 {
        assert st[j] == st[1..|name| + 1][j - 1];
      }
    }
    FirstOccurrence(r, ">", |name| + 1);
  }

  /** A string cut at a `<` and a `>` is a start tag, a middle and a tail. */
  lemma Reassemble(r: string, i: nat, k: nat)
    requires 0 < i < k <= |r| && r[0] == '<' && r[i] == '>'
    ensures r == StartTag(r[1..i]) + r[i + 1..k] + r[k..]
  {
    assert r == [r[0]] + r[1..i] + [r[i]] + r[i + 1..k] + r[k..];
  }

  /** Conversely, whatever parses is exactly the element of what it parses to. */
  lemma ParseElementSound(r: string)
    requires ParseElement(r).Some?
    ensures Element(ParseElement(r).value.0, ParseElement(r).value.1) == r
  {
    var i := Find(r, ">").value;
    var closing := EndTag(LocalName(r[1..i]));
    assert r[i] == '>' by {
      assert r[i..i + 1] == ">";
    }
    Reassemble(r, i, |r| - |closing|);
  }
}
