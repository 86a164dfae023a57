/**
 * `split_markdown_file` itself: the front matter is split off, then the loop
 * of the source runs over the body lines with its variables updated in
 * place, writing each finished unit into the output directory.
 */
module SplitMarkdown {
  import opened Text
  import opened Slug
  import opened FrontMatter
  import opened Headings
  import opened Segmenter
  import opened Directory

  /** Lines 75-86: the name of the section the heading `line` opens, and
      the counter of unnumbered headings after it. */
  method NameHeading(line: string, fileCount: nat) returns (filename: string, newCount: nat)
    ensures Naming(filename, newCount) == NameSection(line, fileCount)
  {
    newCount := fileCount;
    var titleFull := HeadingText(line);
    var parsed := ParseNumbered(titleFull);
    if parsed.Some? {
      var (num, title) := parsed.value;
      filename := Filename(num, Slugify(title));
    } else {
      newCount := newCount + 1;
      filename := Filename(newCount, Slugify(titleFull));
    }
  }

  /** Lines 59-64 (and 67-72, 97-102): one unit is written to `output`;
      the directory is then as if `emitted` and that unit were written in
      order into `base`. */
  method WriteUnit(output: OutputDirectory, frontMatter: seq<string>, filename: string, lines: seq<string>,
                   ghost base: map<string, seq<string>>, ghost emitted: seq<Unit>)
    returns (ghost emitted': seq<Unit>)
    requires output.files == WriteAll(base, frontMatter, emitted)
    modifies output
    ensures emitted' == emitted + [Unit(filename, lines)]
    ensures output.files == WriteAll(base, frontMatter, emitted')
  {
    output.WriteFile(filename, frontMatter, lines);
    WriteAllSnoc(base, frontMatter, emitted, Unit(filename, lines));
    emitted' := emitted + [Unit(filename, lines)];
  }

  /** Lines 47-102: the loop over the body lines `content`, writing each
      unit, with `frontMatter` in front, as soon as it is complete; the
      directory ends up as if the units of `Split` were written in order. */
  method WriteSections(content: seq<string>, frontMatter: seq<string>, output: OutputDirectory)
    modifies output
    ensures output.files == WriteAll(old(output.files), frontMatter, Split(content))
  {
    ghost var base := output.files;
    var currentFileContent: seq<string> := [];
    var currentFilename := IntroName;
    var fileCount: nat := 0;
    var initialContent: seq<string> := [];
    ghost var emitted: seq<Unit> := [];
    var i := 0;
    while i < |content|
      invariant i <= |content|
      invariant Run(ScanState(emitted, initialContent, currentFileContent, currentFilename, fileCount), content[i..], NameSection)
        == Run(Start, content, NameSection)
      invariant output.files == WriteAll(base, frontMatter, emitted)
    {
      ghost var st := ScanState(emitted, initialContent, currentFileContent, currentFilename, fileCount);
      var line := content[i];
      RunStep(st, content, i, NameSection);
      BoundaryStartsWithMarker(line);
      if StartsWith(line, Marker) {
        if currentFileContent != [] {
          emitted := WriteUnit(output, frontMatter, currentFilename, currentFileContent, base, emitted);
        } else if initialContent != [] {
          emitted := WriteUnit(output, frontMatter, currentFilename, initialContent, base, emitted);
        }
        assert emitted == st.emitted + Flushed(st);
        currentFilename, fileCount := NameHeading(line, fileCount);
        currentFileContent := [line];
        StepAtBoundary(st, line, NameSection);
      } else {
        if currentFileContent != [] {
          currentFileContent := currentFileContent + [line];
        } else {
          initialContent := initialContent + [line];
        }
      }
      assert ScanState(emitted, initialContent, currentFileContent, currentFilename, fileCount) == Step(st, line, NameSection);
      i := i + 1;
    }
    assert content[i..] == [];

    // The last section (lines 96-102).
    if currentFileContent != [] {
      emitted := WriteUnit(output, frontMatter, currentFilename, currentFileContent, base, emitted);
    }
    assert emitted == Split(content);
  }

  /** `split_markdown_file` (lines 18-104) on the lines of the input file,
      writing into `output`: the front matter is split off and then the
      units of the body are written in order. */
  method SplitMarkdownFile(lines: seq<string>, output: OutputDirectory)
    modifies output
    ensures output.files == WriteAll(old(output.files), ExtractFrontMatter(lines).frontMatter,
                                     Split(lines[ExtractFrontMatter(lines).contentStart..]))
  {
    var extraction := ExtractFrontMatter(lines);
    WriteSections(lines[extraction.contentStart..], extraction.frontMatter, output);
  }

  /** A file without a level-two heading in its body leaves the output
      directory as it was: not even its introduction is written. */
  lemma NoHeadingWritesNothing(files: map<string, seq<string>>, lines: seq<string>)
    requires !HasBoundary(lines[ExtractFrontMatter(lines).contentStart..])
    ensures WriteAll(files, ExtractFrontMatter(lines).frontMatter,
                     Split(lines[ExtractFrontMatter(lines).contentStart..])) == files
  {
    SplitRoundTrip(lines[ExtractFrontMatter(lines).contentStart..]);
  }
}
