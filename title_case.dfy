/**
 * `to_title_case`: the whitespace-separated words of a string, each with its
 * first character upper-cased and its tail unchanged, joined by single spaces.
 */
module TitleCase {
  import opened Text

  /** `char::is_whitespace`: the characters with the Unicode White_Space property. */
  predicate IsWhitespace(c: char) {
    || ('\t' <= c <= '\r')
    || c == ' '
    || c == '\U{0085}'
    || c == '\U{00A0}'
    || c == '\U{1680}'
    || ('\U{2000}' <= c <= '\U{200A}')
    || c == '\U{2028}'
    || c == '\U{2029}'
    || c == '\U{202F}'
    || c == '\U{205F}'
    || c == '\U{3000}'
  }

  /** A word as `split_whitespace` yields it: non-empty, with no whitespace in it. */
  predicate IsWord(w: string) {
    |w| > 0 && forall i :: 0 <= i < |w| ==> !IsWhitespace(w[i])
  }

  /** The length of the run of non-whitespace characters `s` starts with. */
  function WordLen(s: string): (n: nat)
    ensures n <= |s|
    ensures forall i :: 0 <= i < n ==> !IsWhitespace(s[i])
    ensures n < |s| ==> IsWhitespace(s[n])
  {
    if s == [] || IsWhitespace(s[0]) then 0 else 1 + WordLen(s[1..])
  }

  /**
   * `split_whitespace`: the maximal runs of non-whitespace characters, in
   * order; leading, trailing and repeated whitespace yields no empty word.
   */
  function Words(s: string): (ws: seq<string>)
    decreases |s|
    ensures forall i :: 0 <= i < |ws| ==> IsWord(ws[i])
  {
    if s == [] then []
    else if IsWhitespace(s[0]) then Words(s[1..])
    else
      var n := WordLen(s);
      [s[..n]] + Words(s[n..])
  }

  /** Whitespace only as single spaces between other characters, none at either end. */
  predicate SingleSpaced(r: string) {
    && (forall i :: 0 <= i < |r| ==> IsWhitespace(r[i]) ==> r[i] == ' ')
    && (|r| > 0 ==> r[0] != ' ' && r[|r| - 1] != ' ')
    && (forall i :: 0 <= i < |r| - 1 ==> !(r[i] == ' ' && r[i + 1] == ' '))
  }

  /**
   * `join(" ")`: joining words gives single spaces between them and nothing
   * else, and the empty string only for no words.
   */
  function Join(ws: seq<string>): (r: string)
    ensures (forall i :: 0 <= i < |ws| ==> IsWord(ws[i])) ==> SingleSpaced(r) && (r == [] <==> ws == [])
  {
    if ws == [] then ""
    else if |ws| == 1 then ws[0]
    else
      SpacedCons(ws[0], Join(ws[1..]));
      ws[0] + " " + Join(ws[1..])
  }

  /** A word, a space and a non-empty single-spaced text are single-spaced. */
  lemma SpacedCons(w: string, t: string)
    ensures IsWord(w) && SingleSpaced(t) && t != [] ==> SingleSpaced(w + " " + t)
  {
    if IsWord(w) && SingleSpaced(t) && t != [] {
      var r := w + " " + t;
      forall i | 0 <= i < |r| ensures IsWhitespace(r[i]) ==> r[i] == ' ' {
        if i < |w| {
          assert r[i] == w[i];
        } else if i > |w| {
          assert r[i] == t[i - |w| - 1];
        }
      }
      forall i | 0 <= i < |r| - 1 ensures !(r[i] == ' ' && r[i + 1] == ' ') {
        if i < |w| {
          assert r[i] == w[i];
        } else {
          assert r[i + 1] == t[i - |w|];
        }
      }
      assert r[|r| - 1] == t[|t| - 1];
    }
  }

  /**
   * The first character upper-cased (ASCII mapping), the tail kept; a word
   * stays a word.
   */
  function Capitalize(w: string): (r: string)
    ensures |r| == |w|
    ensures |w| > 0 ==> r[0] == UpperChar(w[0]) && r[1..] == w[1..]
    ensures IsWord(w) ==> IsWord(r)
  {
    if w == [] then [] else [UpperChar(w[0])] + w[1..]
  }

  function CapitalizeAll(ws: seq<string>): (rs: seq<string>)
    ensures |rs| == |ws|
    ensures forall i :: 0 <= i < |ws| ==> rs[i] == Capitalize(ws[i])
  {
    seq(|ws|, i requires 0 <= i < |ws| => Capitalize(ws[i]))
  }

  /**
   * `to_title_case`: the output has no whitespace but single spaces between
   * words; what its words are is stated by `TitleWords`.
   */
  function ToTitleCase(s: string): (r: string)
    ensures SingleSpaced(r)
  {
    Join(CapitalizeAll(Words(s)))
  }

  /** A word followed by the end or by whitespace is measured exactly. */
  lemma {:induction false} WordLenOfWord(w: string, t: string)
    requires forall i :: 0 <= i < |w| ==> !IsWhitespace(w[i])
    requires t == [] || IsWhitespace(t[0])
    ensures WordLen(w + t) == |w|
  {
    if w != [] {
      assert (w + t)[1..] == w[1..] + t;
      WordLenOfWord(w[1..], t);
    }
  }

  /** Splitting a single word gives that word. */
  lemma WordsOfWord(w: string)
    requires IsWord(w)
    ensures Words(w) == [w]
  {
    WordLenOfWord(w, []);
    assert w + [] == w;
  }

  /**
   * Splitting a word, one whitespace character of any kind and more gives the
   * word and then the words of the rest.
   */
  lemma WordsCons(w: string, c: char, rest: string)
    requires IsWord(w) && IsWhitespace(c)
    ensures Words(w + [c] + rest) == [w] + Words(rest)
  {
    var x := w + [c] + rest;
    WordLenOfWord(w, [c] + rest);
    assert w + [c] + rest == w + ([c] + rest);
    assert x[..|w|] == w;
    assert x[|w|..] == [c] + rest;
    assert ([c] + rest)[1..] == rest;
  }

  /** Leading whitespace, however much and of whatever kind, yields no word. */
  lemma {:induction false} WordsAfterWhitespace(ws: string, rest: string)
    requires forall i :: 0 <= i < |ws| ==> IsWhitespace(ws[i])
    ensures Words(ws + rest) == Words(rest)
    decreases |ws|
  {
    if ws == [] {
      assert ws + rest == rest;
    } else {
      assert (ws + rest)[1..] == ws[1..] + rest;
      WordsAfterWhitespace(ws[1..], rest);
    }
  }

  /** `split_whitespace` undoes `join(" ")` on any list of words. */
  lemma {:induction false} WordsJoin(ws: seq<string>)
    requires forall i :: 0 <= i < |ws| ==> IsWord(ws[i])
    ensures Words(Join(ws)) == ws
  {
    if |ws| == 1 {
      WordsOfWord(ws[0]);
    } else if |ws| > 1 {
      WordsJoin(ws[1..]);
      WordsCons(ws[0], ' ', Join(ws[1..]));
      assert ws == [ws[0]] + ws[1..];
    }
  }

  /**
   * The words of the title-cased string are the input's words, each
   * capitalised; in particular the word count is preserved.
   */
  lemma TitleWords(s: string)
    ensures Words(ToTitleCase(s)) == CapitalizeAll(Words(s))
    ensures |Words(ToTitleCase(s))| == |Words(s)|
  {
    WordsJoin(CapitalizeAll(Words(s)));
  }

  lemma {:induction false} NoWordsAllWhitespace(s: string)
    ensures Words(s) == [] <==> forall i :: 0 <= i < |s| ==> IsWhitespace(s[i])
    decreases |s|
  {
    if s != [] {
      if IsWhitespace(s[0]) {
        NoWordsAllWhitespace(s[1..]);
        if Words(s[1..]) == [] {
          forall i | 0 <= i < |s| ensures IsWhitespace(s[i]) {
            if i > 0 {
              assert s[i] == s[1..][i - 1];
            }
          }
        } else {
          var i :| 0 <= i < |s[1..]| && !IsWhitespace(s[1..][i]);
          assert !IsWhitespace(s[i + 1]);
        }
      }
    }
  }

  /** Empty or all-whitespace input, and only such input, gives the empty string. */
  lemma EmptyTitle(s: string)
    ensures ToTitleCase(s) == "" <==> forall i :: 0 <= i < |s| ==> IsWhitespace(s[i])
  {
    NoWordsAllWhitespace(s);
  }

  /** Title-casing a title-cased string changes nothing. */
  lemma TitleIdempotent(s: string)
    ensures ToTitleCase(ToTitleCase(s)) == ToTitleCase(s)
  {
    var ws := Words(s);
    TitleWords(s);
    assert CapitalizeAll(CapitalizeAll(ws)) == CapitalizeAll(ws);
  }
}
