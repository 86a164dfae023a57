# split_markdown in Dafny

This project models `scripts/split_markdown.py`, a script that splits one
Markdown document into one file per level-two (`## `) section. It covers the
logic of the script without its file I/O:

- `slugify` turns heading text into a file-name token. It deletes everything
  outside `[a-zA-Z0-9\s-]`, strips, lower-cases, and collapses every run of
  hyphens and whitespace into one hyphen (module `Slug`).
- Front-matter extraction splits off a `---` block at the top of the file
  (module `FrontMatter`).
- Heading parsing works out the heading text, the optional `N.` number and the
  file name `NN-slug.md` (module `Headings`).
- The segmentation loop cuts the body into an introduction and one unit per
  section (module `Segmenter`). `Step` is one turn of the source's loop over
  its four variables. `Sections` and `Expected` define the cut independently,
  and `RunMatchesReference` proves the loop yields exactly that cut.
- The output directory is a class whose `files` map is updated in place. A
  write replaces any earlier file of the same name (module `Directory`).
- `split_markdown_file` itself is the method `SplitMarkdownFile`. It extracts
  the front matter and then runs the loop (`WriteSections`) with the
  variables of the source updated step by step. The loop writes each unit as
  soon as it is complete. It is proved to leave the directory as if the units
  of `Split` were written in order (module `SplitMarkdown`).

Python's string and regex operations are modelled on ASCII:
- Whitespace is what `str.isspace()` and `\s` accept among ASCII characters: tab, line feed, vertical tab, form feed, carriage return, the four separators 0x1C-0x1F, and space.
- Digits are `0`-`9`.
- `lower()` maps `A`-`Z` to `a`-`z`.

The model follows the code where its own comments say something looser:

- The comment at line 39 speaks of a line ending with `---`, but line 40 looks for a line equal to `"---\n"`. So a final `---` without a newline does not close the block.
- The comment at line 52 says the text before the first `## ` heading is saved as the introduction. The code writes it only when a heading follows (lines 66-72 and 96), so a body without any `## ` line writes no file at all.

Other behaviour of the code worth noting:

- The opening front-matter line is tested with `strip()`, so `"---  \n"` or `"---"` opens a block, unlike the closing line.
- The numbered-heading pattern needs the dot: `3 Foo` is unnumbered.
- The heading text removes every `"## "` in the stripped line, not only the leading one: `## A ## B` has the text `A B`.

## Model

| member | source | states |
|---|---|---|
| Text.Lower | scripts/split_markdown.py:14 | `lower()`: same length, and each character is lower-cased on its own |
| Text.Strip | scripts/split_markdown.py:14 | `strip()`: the result is a slice of the input, everything cut off on either side is whitespace, and the result neither starts nor ends with whitespace |
| Text.TrimStart | scripts/split_markdown.py:14 | only leading whitespace is cut; the result is a suffix of the input |
| Text.TrimEnd | scripts/split_markdown.py:14 | only trailing whitespace is cut; the result is a prefix of the input |
| Text.RemoveAll | scripts/split_markdown.py:75 | `replace(pat, "")`: never longer, adds no character, and leaves the text unchanged exactly when the pattern does not occur in it |
| Text.RemoveAllFirst | scripts/split_markdown.py:75 | the leftmost occurrence is deleted and the scan goes on after it, so every non-overlapping occurrence goes, not only the first |
| Text.NatToDecimal | scripts/split_markdown.py:82 | decimal form of a number: non-empty, digits only, no leading zero |
| Text.DecimalRoundTrip | scripts/split_markdown.py:80 | `int(str(n)) == n` |
| Text.Pad2 | scripts/split_markdown.py:82 | `{n:02d}`: at least two digits, a leading zero only when padding, and the plain decimal form from 10 up |
| Text.Pad2RoundTrip | scripts/split_markdown.py:80-82 | reading the padded form back gives `n`, so distinct numbers get distinct prefixes |
| Slug.DropUnkept | scripts/split_markdown.py:14 | the first substitution keeps only `[a-zA-Z0-9\s-]`, keeps every occurrence of each such character, and changes nothing when every character is kept |
| Slug.Collapse | scripts/split_markdown.py:15 | the second substitution leaves no whitespace and no doubled hyphen; the output starts with a hyphen exactly when the input starts with a separator |
| Slug.Slugify | scripts/split_markdown.py:8-15 | the slug holds only lower-case letters, digits and hyphens, and never two hyphens in a row |
| Slug.SlugifyKeepsAlnums | scripts/split_markdown.py:14-15 | the slug without its hyphens is the input's letters and digits, lower-cased, in order |
| Slug.SlugUnchanged | scripts/split_markdown.py:14-15 | text that already has the shape of a slug is its own slug |
| Slug.SlugifyIdempotent | scripts/split_markdown.py:8-15 | applying `slugify` twice gives the same result as applying it once |
| Slug.CollapseFixed | scripts/split_markdown.py:15 | text without whitespace or doubled hyphens is left as it is by the collapse |
| Slug.SlugifyKeepsLeadingHyphen | scripts/split_markdown.py:14-15 | a hyphen opening the text survives, because the strip runs before the collapse |
| Slug.SlugifyKeepsTrailingHyphen | scripts/split_markdown.py:14-15 | a hyphen closing the text survives likewise |
| Slug.CollapseLeadingRun | scripts/split_markdown.py:15 | a run of one or more separators at the start becomes a single hyphen |
| Slug.CollapseJoin | scripts/split_markdown.py:15 | a run of one or more separators between two pieces becomes one hyphen between their collapsed forms |
| Slug.CollapseWords | scripts/split_markdown.py:15 | words separated by single spaces collapse to the same words separated by hyphens |
| Slug.SlugifyPhrase | scripts/split_markdown.py:14-15 | when deletion and lower-casing leave plain words separated by single spaces, the slug is those words joined by hyphens |
| Slug.SlugifyDocExample | scripts/split_markdown.py:11 | `"Modern Development Toolchain"` becomes `"modern-development-toolchain"` |
| Slug.SlugifyPunctuationExample | scripts/split_markdown.py:14-15 | punctuation is deleted before hyphenation: `"Modern Development Toolchain!! (2025)"` becomes `"modern-development-toolchain-2025"` |
| FrontMatter.IndexFrom | scripts/split_markdown.py:40 | `lines.index(x, from)`: the first position at or after `from` holding `x`, or none exactly when there is none (where Python raises `ValueError`) |
| FrontMatter.ExtractFrontMatter | scripts/split_markdown.py:35-45 | the front matter is the prefix before the body start. The body starts after the first later `"---\n"` line exactly when the first line strips to `---` and such a line exists; otherwise there is no front matter and the body is the whole file |
| FrontMatter.ExtractionPartitions | scripts/split_markdown.py:35-45 | front matter followed by the body is the whole file |
| FrontMatter.UnterminatedExample | scripts/split_markdown.py:40-45 | a closing `---` without its newline leaves the block unclosed: no front matter, body from line 0 |
| FrontMatter.ClosedExample | scripts/split_markdown.py:37-42 | a closed block is split off with both fences |
| Headings.BoundaryStartsWithMarker | scripts/split_markdown.py:56 | a line opens a section exactly when it starts with `"## "` |
| Headings.OtherHeadingsAreNotBoundaries | scripts/split_markdown.py:56 | lines starting `"# "` or `"###"` never open a section |
| Headings.HeadingText | scripts/split_markdown.py:75 | the heading text is no longer than the stripped line, adds no character, and equals the stripped line exactly when it holds no `"## "` |
| Headings.HeadingTextRemovesEvery | scripts/split_markdown.py:75 | every `"## "` goes, not only the leading one: `"## A ## B\n"` has the text `"A B"` |
| Headings.HeadingTextRoundTrip | scripts/split_markdown.py:75 | `"## " + t + "\n"` gives back `t` when `t` has no surrounding whitespace and no `"## "` |
| Headings.LeadingDigits | scripts/split_markdown.py:78 | `\d+` takes the longest digit prefix |
| Headings.TakeLine | scripts/split_markdown.py:78 | `.*` takes everything up to the first line feed |
| Headings.NumberEndsAtDigits | scripts/split_markdown.py:78 | the dot can only follow the whole digit prefix, so the match is unique |
| Headings.ParseNumbered | scripts/split_markdown.py:78-81 | a match exists exactly when digits are followed by a dot. The number is the value of those digits, and the title holds no line feed and does not start with whitespace |
| Headings.ParseNumberedRoundTrip | scripts/split_markdown.py:78-81 | digits, a dot, any whitespace and a one-line title parse back to that number and title |
| Headings.MissingDotIsUnnumbered | scripts/split_markdown.py:78 | digits followed by something other than a dot are not a numbered title |
| Headings.Filename | scripts/split_markdown.py:82 | `f"{n:02d}-{slug}.md"` is a well-formed name whose number reads back as `n` and whose slug part is `slug` |
| Headings.FilenameInjective | scripts/split_markdown.py:82-86 | two names are equal exactly when their numbers and slugs are |
| Headings.NameSection | scripts/split_markdown.py:75-86 | a numbered heading is named after its own number and title and leaves the counter alone; any other heading advances the counter and is named after it and the whole heading text |
| Headings.NumberedHeadingName | scripts/split_markdown.py:75-82 | `## N. Title` is written to `pad2(N)-slug(Title).md` with the counter unchanged |
| Headings.PlainHeadingName | scripts/split_markdown.py:75-86 | a heading whose text does not start with a digit is written under the next counter value, which it takes |
| Segmenter.Flushed | scripts/split_markdown.py:58-72 | a heading flushes at most one non-empty unit under `current_filename`: the open section, or else the introduction, and nothing when both are empty |
| Segmenter.StepConsumes | scripts/split_markdown.py:55-93 | one turn takes the line in exactly once, only appends to what was flushed, and keeps a section open from the first heading on |
| Segmenter.RunBody | scripts/split_markdown.py:89-93 | lines that are not headings join the open section, or before any section the introduction |
| Segmenter.LeadingBody | scripts/split_markdown.py:53-93 | the introduction is the longest heading-free prefix |
| Segmenter.SectionLength | scripts/split_markdown.py:88-91 | a section runs from its heading up to the next heading |
| Segmenter.RunMatchesReference | scripts/split_markdown.py:48-102 | the loop and the final flush produce exactly the reference cut, for any naming rule |
| Segmenter.SectionsFlatten | scripts/split_markdown.py:88-91 | the sections hold every line, in order |
| Segmenter.SectionsCount | scripts/split_markdown.py:56-88 | there is one section per heading |
| Segmenter.SectionsWellFormed | scripts/split_markdown.py:56-91 | each section is a heading followed by lines that are not headings |
| Segmenter.SectionsSafe | scripts/split_markdown.py:82-86 | under a rule that gives well-formed names, every section file has one |
| Segmenter.SectionsNumbering | scripts/split_markdown.py:84-86 | unnumbered headings are numbered on from the counter in order of appearance |
| Segmenter.NameSectionRule | scripts/split_markdown.py:75-86 | the script's naming rule gives well-formed names and advances the counter exactly at unnumbered headings |
| Segmenter.SplitMatchesReference | scripts/split_markdown.py:48-102 | the units written are the introduction (if any) followed by the sections, named by the script's rule |
| Segmenter.SplitRoundTrip | scripts/split_markdown.py:53-102 | with at least one heading, the units concatenated in order are the body; without one, nothing is written |
| Segmenter.SplitShape | scripts/split_markdown.py:56-102 | after the first unit every unit is a section. The first unit is the introduction (named `00-introduction.md`) exactly when the body has a heading and does not start with one. There is one unit per heading plus that introduction, and every name but the introduction's is well-formed |
| Segmenter.SplitNumbering | scripts/split_markdown.py:49-86 | each section with an unnumbered heading is numbered by how many unnumbered headings the body has up to it: 1, 2, 3, ... |
| Directory.OutputDirectory.constructor | scripts/split_markdown.py:28 | a newly created output directory holds no file; an existing one, which `mkdir(exist_ok=True)` keeps as it is, is the arbitrary initial `old(output.files)` of `SplitMarkdownFile` |
| Directory.OutputDirectory.WriteFile | scripts/split_markdown.py:59-64 | the file is replaced by the front matter followed by the lines; no other file changes |
| Directory.WriteAllSnoc | scripts/split_markdown.py:59-72 | writing one more unit changes only the file of its name |
| Directory.LastNamed | scripts/split_markdown.py:59-72 | the last unit written under a name, or none exactly when no unit has that name |
| Directory.WriteAllEffect | scripts/split_markdown.py:59-102 | after the writes each file holds the front matter and the lines of the last unit of its name; names no unit uses keep their contents or stay absent |
| Directory.WriteAllDistinct | scripts/split_markdown.py:59-102 | when names do not collide, every unit ends up in its own file, front matter first |
| SplitMarkdown.NameHeading | scripts/split_markdown.py:75-86 | the method computes the name and counter of the naming rule |
| SplitMarkdown.WriteUnit | scripts/split_markdown.py:59-64 | one unit is written, and the directory is as if it followed the units already written |
| SplitMarkdown.WriteSections | scripts/split_markdown.py:47-102 | the loop, writing as it goes, leaves the directory as if the units of `Split` were written in order |
| SplitMarkdown.SplitMarkdownFile | scripts/split_markdown.py:18-104 | the directory ends up holding the units of the body after the front matter, each with the front matter in front |
| SplitMarkdown.NoHeadingWritesNothing | scripts/split_markdown.py:52-102 | a file whose body has no `## ` line leaves the directory unchanged |

## Left out

- File I/O: creating the output directory (only a newly created, empty one is modelled, by the constructor of `OutputDirectory`), reading the input with `readlines`, and writing with `open`/`writelines` (lines 26-32, 59-64, 67-72, 97-102). The input is a sequence of lines with their line feeds. The output is an in-memory map from file name to lines.
- Console messages (`print`, lines 30, 43, 45, 60, 68, 98, 104) and the `__main__` block with its constants (lines 4-5, 107-111).
- Unicode: whitespace, digits and case mapping are modelled on ASCII only. UTF-8 decoding and I/O errors are not modelled.
- The regular-expression engine: only the three fixed patterns of lines 14, 15 and 78 are modelled, as character scans.
- File-name collisions are modelled as the script behaves: a later write overwrites an earlier one (`WriteAllEffect`). This includes a numbered heading `0. Introduction` overwriting the introduction. No collision is detected or resolved.
- The naming rule is a parameter of the loop model (`Namer`), fixed to the script's rule in `Split`. The structural lemmas therefore hold for any rule, and the naming lemmas are proved for the script's rule.
