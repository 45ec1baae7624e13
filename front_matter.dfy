/**
 * Front-matter stripping (`extract_front_matter`): a document may open with
 * a metadata block in one of three conventions; the body is what follows the
 * block's closing marker.
 */
module FrontMatter {
  import opened Wrappers
  import opened Text

  /** The three metadata-block conventions: YAML `---`, TOML `+++`, JSON `{ }`. */
  datatype Delimiter = Yaml | Toml | Json

  /** What the document must start with for the convention to apply. */
  function Opener(d: Delimiter): string {
    match d
    case Yaml => "---\n"
    case Toml => "+++\n"
    case Json => "{\n"
  }

  /** The marker searched for to end the block. */
  function Closer(d: Delimiter): string {
    match d
    case Yaml => "\n---\n"
    case Toml => "\n+++\n"
    case Json => "\n}\n"
  }

  /** How far past the start of the closing marker the body begins. */
  function Skip(d: Delimiter): (n: nat)
    ensures n <= |Closer(d)|
  {
    match d
    case Yaml => 5
    case Toml => 5
    case Json => 2
  }

  predicate HasOpener(content: string) {
    StartsWith(content, Opener(Yaml)) || StartsWith(content, Opener(Toml)) || StartsWith(content, Opener(Json))
  }

  /** The convention in force, trying `---`, then `+++`, then `{`. */
  function Detect(content: string): (r: Option<Delimiter>)
    ensures r.Some? ==> StartsWith(content, Opener(r.value))
    ensures r.None? <==> !HasOpener(content)
  {
    if StartsWith(content, "---\n") then Some(Yaml)
    else if StartsWith(content, "+++\n") then Some(Toml)
    else if StartsWith(content, "{\n") then Some(Json)
    else None
  }

  /**
   * The body of `content`: everything after the closing marker of its
   * metadata block, the empty string when the block is never closed, and the
   * whole content when it has no block. The result is always a suffix of the
   * content, and it is the whole content exactly when no opener matches.
   */
  function ExtractFrontMatter(content: string): (body: string)
    ensures IsSuffix(body, content)
    ensures !HasOpener(content) ==> body == content
    ensures HasOpener(content) ==> |body| < |content|
  {
    match Detect(content)
    case None => content
    case Some(d) =>
      match Find(content, Closer(d))
      case Some(endPos) => content[endPos + Skip(d)..]
      case None => ""
  }

  /** The three openers exclude one another, so the order they are tried in never changes the outcome. */
  lemma OpenersExclusive(content: string, d1: Delimiter, d2: Delimiter)
    requires StartsWith(content, Opener(d1)) && StartsWith(content, Opener(d2))
    ensures d1 == d2
  {
    assert content[0] == Opener(d1)[0] && content[0] == Opener(d2)[0];
  }

  lemma DetectFinds(content: string, d: Delimiter)
    requires StartsWith(content, Opener(d))
    ensures Detect(content) == Some(d)
  {
    OpenersExclusive(content, Detect(content).value, d);
  }

  /**
   * A `---` or `+++` block closed by its first `\n---\n` (resp. `\n+++\n`)
   * leaves exactly the text after that marker. The opener's own newline may
   * start the marker, so `---\n---\nX` has body `X`.
   */
  lemma {:induction false} TerminatedBlock(d: Delimiter, front: string, rest: string)
    requires d == Yaml || d == Toml
    requires StartsWith(front + Closer(d) + rest, Opener(d))
    requires forall j: nat :: j < |front| ==> !OccursAt(front + Closer(d) + rest, Closer(d), j)
    ensures ExtractFrontMatter(front + Closer(d) + rest) == rest
  {
    var content := front + Closer(d) + rest;
    DetectFinds(content, d);
    assert content[|front|..|front| + |Closer(d)|] == Closer(d);
    FirstOccurrence(content, Closer(d), |front|);
    assert content[|front| + 5..] == rest;
  }

  /** A JSON block closed by its first `\n}\n` leaves the text from that marker's last newline on. */
  lemma {:induction false} TerminatedJsonBlock(front: string, rest: string)
    requires StartsWith(front + "\n}\n" + rest, "{\n")
    requires forall j: nat :: j < |front| ==> !OccursAt(front + "\n}\n" + rest, "\n}\n", j)
    ensures ExtractFrontMatter(front + "\n}\n" + rest) == "\n" + rest
  {
    var content := front + "\n}\n" + rest;
    DetectFinds(content, Json);
    assert content[|front|..|front| + 3] == "\n}\n";
    FirstOccurrence(content, "\n}\n", |front|);
    assert content[|front| + 2..] == "\n" + rest;
  }

  /** An opened block that is never closed fails closed: the body is empty, not the content. */
  lemma {:induction false} UnterminatedBlock(content: string, d: Delimiter)
    requires StartsWith(content, Opener(d))
    requires forall j: nat :: !OccursAt(content, Closer(d), j)
    ensures ExtractFrontMatter(content) == ""
  {
    DetectFinds(content, d);
  }

  /** The YAML opener's newline starts the closing marker. */
  lemma {:induction false} EmptyYamlBlock()
    ensures ExtractFrontMatter("---\n---\nX") == "X"
  {
    assert ("---" + "\n---\n" + "X") == "---\n---\nX";
    forall j: nat | j < 3 ensures !OccursAt("---\n---\nX", "\n---\n", j) {
      assert "---\n---\nX"[j..j + 5][0] == '-';
    }
    TerminatedBlock(Yaml, "---", "X");
  }
}
