/**
 * Step 1 of `split_markdown_file`: a YAML front-matter block at the top of the
 * file is recognised and split off, so that it can be copied to the head of
 * every output file.
 */
module FrontMatter {
  import opened Wrappers
  import opened Text

  /** What the first line must be, once stripped, to open a block. */
  const Fence: string := "---"

  /** The exact line (newline included) that closes a block. */
  const ClosingLine: string := "---\n"

  /** `lines.index(x, from)`, with `None` where Python raises `ValueError`:
      the first position at or after `from` that holds `x`. */
  function IndexFrom(lines: seq<string>, x: string, from: nat): (r: Option<nat>)
    ensures r.Some? ==> from <= r.value < |lines| && lines[r.value] == x
    ensures r.Some? ==> forall j :: from <= j < r.value ==> lines[j] != x
    ensures r.None? <==> forall j :: from <= j < |lines| ==> lines[j] != x
    decreases |lines| - from
  {
    if from >= |lines| then None
    else if lines[from] == x then Some(from)
    else IndexFrom(lines, x, from + 1)
  }

  /** The block is opened: the first line is `---` up to surrounding whitespace. */
  predicate Opens(lines: seq<string>) {
    |lines| > 0 && Strip(lines[0]) == Fence
  }

  /** The block is closed: some later line is exactly `---\n`. */
  ghost predicate Closes(lines: seq<string>) {
    exists k :: 1 <= k < |lines| && lines[k] == ClosingLine
  }

  /** The front matter (fences included) and the index where the body starts. */
  datatype Extraction = Extraction(frontMatter: seq<string>, contentStart: nat)

  /** The block runs from the opening line through the first closing line
      after it. A file that does not open a block, or that opens one and
      never closes it, has no front matter and its body is the whole file. */
  function ExtractFrontMatter(lines: seq<string>): (r: Extraction)
    ensures r.contentStart <= |lines| && r.frontMatter == lines[..r.contentStart]
    ensures r.contentStart > 0 <==> Opens(lines) && Closes(lines)
    ensures r.contentStart > 0 ==>
      r.contentStart >= 2 && lines[r.contentStart - 1] == ClosingLine &&
      forall j :: 1 <= j < r.contentStart - 1 ==> lines[j] != ClosingLine
  {
    if Opens(lines) then
      match IndexFrom(lines, ClosingLine, 1)
      case Some(endIndex) =>
        ClosedAt(lines, endIndex);
        Extraction(lines[..endIndex + 1], endIndex + 1)
      case None =>
        NeverClosed(lines);
        Extraction([], 0)
    else Extraction([], 0)
  }

  /** The first closing line after the opening one closes the block. */
  lemma ClosedAt(lines: seq<string>, endIndex: nat)
    requires IndexFrom(lines, ClosingLine, 1) == Some(endIndex)
    ensures Closes(lines) && 1 <= endIndex < |lines| && lines[endIndex] == ClosingLine
    ensures forall j :: 1 <= j < endIndex ==> lines[j] != ClosingLine
  {
  }

  /** Without a closing line after the opening one, the block is not closed. */
  lemma NeverClosed(lines: seq<string>)
    requires IndexFrom(lines, ClosingLine, 1).None?
    ensures !Closes(lines)
  {
  }

  /** Front matter and body together are the file: nothing is lost or
      duplicated. */
  lemma ExtractionPartitions(lines: seq<string>)
    ensures ExtractFrontMatter(lines).frontMatter + lines[ExtractFrontMatter(lines).contentStart..] == lines
  {
    var r := ExtractFrontMatter(lines);
    assert lines[..r.contentStart] + lines[r.contentStart..] == lines;
  }

  /** A closing fence without its newline (the last line of a file that does
      not end in a newline) does not close the block. */
  lemma UnterminatedExample(lines: seq<string>)
    requires lines == ["---\n", "title: x\n", "---"]
    ensures ExtractFrontMatter(lines) == Extraction([], 0)
  {
    assert lines[1] != ClosingLine && lines[2] != ClosingLine;
  }

  lemma ClosingLineOpens(line: string)
    requires line == ClosingLine
    ensures Strip(line) == Fence
  {
    assert !IsSpace(line[0]);
    assert TrimStart(line) == line;
    assert IsSpace(line[3]) && line[..3] == Fence;
    assert TrimEnd(line) == TrimEnd(Fence);
  }

  /** A closed block is split off with both of its fences. */
  lemma ClosedExample(lines: seq<string>)
    requires lines == ["---\n", "title: x\n", "---\n", "# Body\n"]
    ensures ExtractFrontMatter(lines) == Extraction(lines[..3], 3)
  {
    ClosingLineOpens(lines[0]);
    assert lines[1] != ClosingLine && lines[2] == ClosingLine;
  }
}
