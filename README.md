# shokunin text utilities, modelled in Dafny

This project models the text transformations of shokunin's content pipeline, from `src/utilities.rs`:

- **Front-matter stripping** (`extract_front_matter`). A document may open with a YAML (`---`), TOML (`+++`) or JSON (`{`) metadata block. The body is whatever follows the block's closing marker. An unterminated block yields the empty body.
- **Heading rewriting** (`format_header_with_id_class`). A loop copies a heading's HTML character by character. It splices in one ` id="<slug>"` before the first space inside a tag, and one ` class="<slug>"` before the first `>` that closes a tag. The slug is computed from the whole heading:
  - lower-cased;
  - every run of characters outside `[a-z0-9]` turned into `-`;
  - `-` trimmed at both ends;
  - trailing `-h1` … `-h6` trimmed, in that order.
- **Title casing** (`to_title_case`). The whitespace-separated words are capitalised and joined with single spaces.
- **XML element writing** (`write_element`). `<name>value</name>` is appended to the writer's buffer, and nothing is written for an empty value.
- **Path helpers**:
  - the public directory name, with spaces turned into `_`;
  - the backup path `with_extension("src.html")`;
  - the case-insensitive `html` extension filter of `find_html_files`.

Modules, one concept each:

- `text.dfy`: `Wrappers` (Option) and `Text`. `Text` holds prefix and suffix tests, `str::find` and ASCII case mapping.
- `front_matter.dfy`: `FrontMatter`.
- `slug.dfy`: `Slugs`, the slug pipeline.
- `header.dfy`: `Header`, the heading rewriter.
- `title_case.dfy`: `TitleCase`.
- `xml_writer.dfy`: `XmlWriter`. It contains a `Writer` class whose buffer is a `string` field.
- `paths.dfy`: `Paths`.

The heading rewriter keeps the original's imperative form: a loop with the three flags `inHeaderTag`, `idAttributeAdded` and `classAttributeAdded`. It is proved equal to a declarative specification, `Formatted`:
- the id goes at the first position that holds a space while a tag is open;
- the class goes at the first such position that holds `>`;
- every input character is emitted once, in order.

`FormattedIsInsertion` then shows that the output is the input with at most one id and at most one class attribute inserted, both carrying the same slug.

Where the written description of the system and the code disagree, the model follows the code:
- The flags are never reset, so both attributes are inserted at most once per call, not once per tag.
- The suffixes `-h1` … `-h6` are each trimmed repeatedly and in a fixed order. `StripOrder` shows that a `-h1` exposed by trimming `-h2` stays.
- For `<h1>Hello, world!</h1>` the code inserts no id, because no tag contains a space. It puts the class right after `<h1`, with the slug `h1-hello-world` of the whole heading, tags included, rather than a slug of its first word (`SlugHello`, `HelloWorldHeading`).

## Model

| member | source | states |
|---|---|---|
| Text.Find | src/utilities.rs:422 | `str::find`: the result is an occurrence of the pattern with none before it; None means the pattern occurs nowhere |
| Text.FindFrom | src/utilities.rs:422 | the first occurrence at or after a start index, or None when there is none from there on |
| Text.Lower | src/utilities.rs:384 | lower-casing keeps the length and maps each character by the ASCII rule |
| FrontMatter.Detect | src/utilities.rs:421-433 | the convention chosen is one whose opener the content starts with; no convention is chosen exactly when none of the three openers is a prefix |
| FrontMatter.ExtractFrontMatter | src/utilities.rs:420-442 | the body is always a suffix of the content; it is the whole content when no opener matches, and strictly shorter when one does |
| FrontMatter.OpenersExclusive | src/utilities.rs:421-433 | no content starts with two different openers, so the order they are tried in never changes the result |
| FrontMatter.DetectFinds | src/utilities.rs:421-433 | content starting with an opener is detected as that opener's convention |
| FrontMatter.TerminatedBlock | src/utilities.rs:421-429 | for `---` or `+++`, the body is exactly the text after the first `\n---\n` (`\n+++\n`), 5 characters past its start |
| FrontMatter.TerminatedJsonBlock | src/utilities.rs:433-435 | for `{`, the body starts 2 characters into the first `\n}\n`, so it begins with that marker's last newline |
| FrontMatter.UnterminatedBlock | src/utilities.rs:421-438 | an opener whose closing marker never occurs yields the empty body, never the content |
| FrontMatter.EmptyYamlBlock | src/utilities.rs:421-423 | the search starts at index 0, so the opener's own newline can begin the closing marker: `---\n---\nX` has body `X` |
| Slugs.CollapseRuns | src/utilities.rs:384 | replacing every run of `[^a-z0-9]+` by `-` keeps exactly the slug characters in order, leaves no two dashes in a row, yields empty output only for empty input, and starts (ends) with a dash exactly when the input starts (ends) with a run |
| Slugs.CollapseAppend | src/utilities.rs:384 | `replace_all` works piece by piece: cut anywhere outside a run of other characters, the two pieces are replaced independently and the results joined |
| Slugs.CollapseRun | src/utilities.rs:384 | a whole non-empty run of characters outside `[a-z0-9]` becomes exactly one `-` |
| Slugs.CollapseSlugChars | src/utilities.rs:384 | text of `a`-`z` and `0`-`9` only is left unchanged |
| Slugs.CollapseRunThenWord | src/utilities.rs:384 | a run followed by a word of slug characters becomes `-` and the word, whatever follows |
| Slugs.CollapseHello | src/utilities.rs:384 | the lower-cased example heading `<h1>hello, world!</h1>` becomes `-h1-hello-world-h1-` |
| Slugs.TrimStartDashes | src/utilities.rs:385 | only leading dashes are removed, and the result does not start with one |
| Slugs.TrimEndDashes | src/utilities.rs:385 | only trailing dashes are removed, and the result does not end with one |
| Slugs.TrimDashesWellFormed | src/utilities.rs:384-385 | after trimming dashes the collapsed text is a well-formed slug |
| Slugs.TrimEndMatches | src/utilities.rs:386-391 | `trim_end_matches` leaves a prefix that no longer ends with the suffix |
| Slugs.TrimEndMatchesRemovesCopies | src/utilities.rs:386-391 | what `trim_end_matches` removes is a run of whole copies of the suffix |
| Slugs.TrimSuffixWellFormed | src/utilities.rs:386-391 | trimming a `-hN` suffix keeps a slug well-formed |
| Slugs.StripWellFormed | src/utilities.rs:386-391 | the six suffix trims keep a slug well-formed |
| Slugs.TrimDashes | src/utilities.rs:385 | `trim_matches('-')` keeps a piece of its input with only dashes before and after it, and the piece neither starts nor ends with a dash |
| Slugs.StripHeadingSuffixes | src/utilities.rs:386-391 | the chained `trim_end_matches` calls leave a prefix of the text that no longer ends with the last suffix tried |
| Slugs.Slug | src/utilities.rs:383-391 | for every heading the slug holds only `a`-`z`, `0`-`9` and single dashes, with no dash at either end, and never ends with `-h6`; `StripOrder` and `SlugHello` state which suffixes go |
| Slugs.StripLevelKeeps | src/utilities.rs:386-391 | a trim whose suffix is absent changes nothing |
| Slugs.TrimDashesAround | src/utilities.rs:385 | one dash on each side of a text without end dashes is all `trim_matches('-')` removes |
| Slugs.StripSettled | src/utilities.rs:386-391 | once the strips from some level on find their suffix absent, the result no longer changes |
| Slugs.StripWordH1 | src/utilities.rs:386-391 | a text not ending with a digit loses a single trailing `-h1` and nothing more |
| Slugs.SlugHello | src/utilities.rs:383-391 | the heading `<h1>Hello, world!</h1>` has the slug `h1-hello-world`: the whole heading, tags included, is slugged and only the closing tag's `-h1` is stripped |
| Slugs.StripOrder | src/utilities.rs:386-391 | the trims run in the order `-h1` … `-h6`: `w-h1-h2` becomes `w-h1`, for every `w` |
| Header.InTagStep | src/utilities.rs:373-413 | how `in_header_tag` moves: set by `<`, cleared by `>`, otherwise kept |
| Header.FirstSlotIsFirst | src/utilities.rs:380-409 | the slot found holds the character inside a tag and no slot precedes it |
| Header.FormatHeaderWithIdClass | src/utilities.rs:364-417 | the rewritten heading equals the declarative specification `Formatted` |
| Header.InsertAttributes | src/utilities.rs:368-416 | the character loop with its three flags emits, for every slug, exactly the input with the id text before the first space inside a tag and the class text before the first `>` closing a tag |
| Header.EmittedCopies | src/utilities.rs:373-410 | characters where no attribute is due are copied unchanged and in order |
| Header.FormattedIsInsertion | src/utilities.rs:373-416 | nothing is lost: the output is the input with at most one id attribute and at most one class attribute inserted, in position order, both with the same slug |
| Header.EmittedIsInsertion | src/utilities.rs:373-416 | the same insertion form for any slug |
| Header.NoTagUnchanged | src/utilities.rs:373-378 | input without `<` comes back unchanged |
| Header.ClassBeforeFirstClose | src/utilities.rs:395-413 | the class goes before the first `>` after the first `<`, and nowhere if there is none |
| Header.IdInFirstTag | src/utilities.rs:380-394 | the id goes before the first space inside the first tag when that tag has one |
| Header.HelloWorldNoIdSlot | src/utilities.rs:380-394 | `<h1>Hello, world!</h1>` has no space inside a tag, so it gets no id |
| Header.HelloWorldClassSlot | src/utilities.rs:395-409 | the class of `<h1>Hello, world!</h1>` goes before the `>` of `<h1>` |
| Header.HelloWorldHeading | src/utilities.rs:364-417 | `<h1>Hello, world!</h1>` becomes `<h1 class="h1-hello-world">Hello, world!</h1>` |
| TitleCase.WordLen | src/utilities.rs:351 | the length of the leading non-whitespace run, which ends at whitespace or the end |
| TitleCase.Words | src/utilities.rs:351 | `split_whitespace` yields only non-empty words without whitespace |
| TitleCase.Capitalize | src/utilities.rs:352-357 | the first character is upper-cased, the tail kept, the length kept, and a word stays a word |
| TitleCase.CapitalizeAll | src/utilities.rs:352-358 | each word is capitalised in place |
| TitleCase.WordsCons | src/utilities.rs:351 | a word followed by any one whitespace character splits off as the first word, the rest splitting on its own |
| TitleCase.WordsAfterWhitespace | src/utilities.rs:351 | leading whitespace of any kind and length yields no word: the words are those of what follows |
| TitleCase.Join | src/utilities.rs:360 | `join(" ")` of words leaves no whitespace but single spaces between them, none at either end, and is empty only for no words |
| TitleCase.ToTitleCase | src/utilities.rs:350-361 | the output's only whitespace is single spaces between words; `TitleWords`, `EmptyTitle` and `TitleIdempotent` state what the words are |
| TitleCase.WordsJoin | src/utilities.rs:351-360 | splitting on whitespace undoes joining words with single spaces |
| TitleCase.TitleWords | src/utilities.rs:350-361 | the output's words are the input's words, each capitalised; the word count is preserved |
| TitleCase.NoWordsAllWhitespace | src/utilities.rs:351 | there are no words exactly when the input is all whitespace |
| TitleCase.EmptyTitle | src/utilities.rs:350-361 | the output is empty exactly when the input is empty or all whitespace |
| TitleCase.TitleIdempotent | src/utilities.rs:350-361 | title-casing twice is title-casing once |
| XmlWriter.LocalName | src/utilities.rs:335-340 | the local name is a suffix of the qualified name |
| XmlWriter.LocalNameAfterFirstColon | src/utilities.rs:335-340 | it is the whole name when there is no `:`, and otherwise exactly the text after the first `:` |
| XmlWriter.Element | src/utilities.rs:329-345 | an element is empty exactly when its value is, and otherwise carries the value verbatim right after the start tag |
| XmlWriter.Writer.WriteElement | src/utilities.rs:324-347 | the buffer gains exactly the element, which is nothing for an empty value |
| XmlWriter.EmptyValueSkipped | src/utilities.rs:329 | an empty value writes nothing |
| XmlWriter.UnprefixedBalanced | src/utilities.rs:329-345 | a name without `:` gives `<name>value</name>` with the value verbatim |
| XmlWriter.PrefixedClosesLocal | src/utilities.rs:335-344 | a prefixed name `p:l` opens with `<p:l>` and closes with only `</l>` |
| XmlWriter.ParseElement | src/utilities.rs:329-345 | reading back an element gives a non-empty value |
| XmlWriter.ParseElementInverse | src/utilities.rs:329-345 | every element written with a non-empty value reads back as the name and the verbatim value it came from |
| XmlWriter.ParseElementSound | src/utilities.rs:329-345 | whatever reads back as a name and a value is exactly the element written from them |
| Paths.PublicDirName | src/utilities.rs:99 | the directory name has the site name's length and no spaces, and differs only where a space became `_` |
| Paths.PublicDirNameIdempotent | src/utilities.rs:99 | renaming twice is renaming once, and a name without spaces is kept |
| Paths.LastIndexOf | src/utilities.rs:226 | the last index holding the character, or None when it does not occur |
| Paths.TrimTail | src/utilities.rs:226 | trailing `/` and `/.` are dropped: the result is a prefix that ends with neither |
| Paths.TrailingSeparatorIgnored | src/utilities.rs:226 | a trailing `/` or `/.` changes neither the trimmed path nor the file name: `a/b.txt/.` names `b.txt` |
| Paths.NameStart | src/utilities.rs:226 | the last component starts after the last `/` |
| Paths.FileName | src/utilities.rs:226 | a file name is non-empty and holds no `/` |
| Paths.SplitAtDot | src/utilities.rs:166-169 | the stem is a non-empty prefix of the name; with an extension, the name is stem, `.`, extension, and the extension has no dot; there is no extension exactly for `..` and for names with no dot after the first character |
| Paths.Stem | src/utilities.rs:226 | `file_stem` is a non-empty prefix of the file name, and there is one exactly when there is a file name |
| Paths.Extension | src/utilities.rs:166-167 | `extension` is the dot-free text after the file name's last dot; none without a file name, for `..`, and for a name with no dot after its first character |
| Paths.WithExtension | src/utilities.rs:226 | a path without a file name is returned as it is |
| Paths.IsHtmlFile | src/utilities.rs:166-171 | a file is picked up exactly when it has an extension that lower-cases to `html` |
| Paths.NoDotNotHtml | src/utilities.rs:166-171 | a file name with no dot after its first character has no extension and is never picked up |
| Paths.EqIgnoreAsciiCaseLower | src/utilities.rs:169 | comparing without regard to ASCII case is comparing the lower-cased strings |
| Paths.FileNameOfJoin | src/utilities.rs:226 | any name other than empty, `.` or `..`, without `/`, after an empty head or one ending in `/`, is the path's file name |
| Paths.WithExtensionShape | src/utilities.rs:226 | `with_extension` keeps the path up to the stem and appends `.` and the extension |
| Paths.FileNameWithExtension | src/utilities.rs:226 | the new file name is the old stem, `.`, and the extension |
| Paths.SplitAtNewDot | src/utilities.rs:166-169 | a stem, `.`, and a dot-free extension split back into the two |
| Paths.WithExtensionRoundTrip | src/utilities.rs:226 | with a dot-free extension the stem is kept and the extension is the one given |
| Paths.TwoPartExtension | src/utilities.rs:226 | an extension `a.b` adds `.a` to the stem and reads back as `b` |
| Paths.BackupPath | src/utilities.rs:226 | a path without a file name is its own backup path; `BackupIsHtml`, `BackupDiffers` and `BackupBeside` state the rest |
| Paths.BackupIsHtml | src/utilities.rs:225-227 | a backup keeps the stem plus `.src` and has extension `html`, so the HTML filter accepts it |
| Paths.BackupDiffers | src/utilities.rs:225-227 | the backup path never equals the page's own path |
| Paths.HiddenFileNoExtension | src/utilities.rs:166-171 | a name whose only dot is its first character has no extension, so `.html` is not picked up |
| Paths.StemAndExtension | src/utilities.rs:166-171 | `stem.ext` reads back its stem and extension, and is picked up exactly when `ext` is `html` in some ASCII case |
| Paths.BackupBeside | src/utilities.rs:225-227 | the backup of `dir/stem.ext` is `dir/stem.src.html` |

## Left out

- File-system work is not modelled: `directory`, the rest of `move_output_directory`, the directory walk of `find_html_files`, the copy in `backup_file`, `write_minified_html`, `cleanup_directory`, `create_directory` and the `minify_html_files` loop. They are I/O and console output.
- `minify_html` and `create_comrak_options` are not modelled. They only configure external libraries whose behaviour is not part of this model.
- `update_class_attributes` is not modelled. Its rewrite depends on regular expressions chosen by its callers.
- `src/lib.rs` (command-line entry point and module declarations) is not part of this model.
- The general `Regex` argument of `format_header_with_id_class` is not modelled. The slug uses the pattern `[^a-z0-9]+`, which is what the callers pass.
- Text.Lower: only ASCII letters are case-mapped. Unicode lower-casing can change lengths and maps a few non-ASCII letters into ASCII. The same holds for Capitalize, which stands for Rust's Unicode `to_uppercase`.
- Strings are sequences of characters. The original slices by byte index, but every marker it searches for is ASCII, so the split points agree.
- Header.FormatHeaderWithIdClass computes the slug once and hands it to the loop. The original recomputes the same pure expression at each insertion, which gives the same text.
- XmlWriter.Writer.WriteElement: the writer is assumed not to indent. Write errors of the in-memory cursor, which cannot occur, are not modelled.
- Paths: paths are Unix path strings with `/` as the only separator. Non-UTF-8 names and the `is_dir` test of `find_html_files` are not modelled.
- The expected strings in `tests/test_html.rs` (a `tabindex` attribute, slugs such as `h1-hello`) belong to another version of the heading code. The model follows `src/utilities.rs`.
- The key/value parser behind `tests/test_frontmatter.rs` is not part of this model.
