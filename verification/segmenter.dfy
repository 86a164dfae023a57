/**
 * Step 2 of `split_markdown_file`: the body of the file is cut into one unit
 * per level-two section, plus an introduction for what precedes the first
 * section. `Step` is one turn of the source's loop over the body lines,
 * acting on the loop's variables; `Sections` and `Expected` say
 * independently what the cut must be, and `RunMatchesReference` proves that
 * running the loop produces exactly that.
 *
 * The loop does not look inside file names: it only stores the name a
 * heading is given. So the cut is stated for any naming rule `name`, and
 * `Split` fixes the rule to the one of the source, `NameSection`.
 */
module Segmenter {
  import opened Headings

  /** The name the text before the first section is written under. */
  const IntroName: string := "00-introduction.md"

  /** A naming rule: the name of the section a heading line opens, given
      the counter of unnumbered headings, and the counter after it. */
  type Namer = (string, nat) -> Naming

  /** One output file: its name and the body lines written to it (the
      front matter is put in front of them when the file is written). */
  datatype Unit = Unit(filename: string, lines: seq<string>)

  /** The loop's variables: `current_file_content`, `initial_content`,
      `current_filename` and `file_count`, and the units already flushed. */
  datatype ScanState = ScanState(
    emitted: seq<Unit>,
    initial: seq<string>,
    current: seq<string>,
    filename: string,
    fileCount: nat)

  /** The variables before the first line (lines 48-53). */
  const Start: ScanState := ScanState([], [], [], IntroName, 0)

  /** All the lines of `units`, in order. */
  function Flatten(units: seq<Unit>): (r: seq<string>)
    ensures units == [] ==> r == []
  {
    if units == [] then [] else units[0].lines + Flatten(units[1..])
  }

  lemma {:induction false} FlattenAppend(a: seq<Unit>, b: seq<Unit>)
    ensures Flatten(a + b) == Flatten(a) + Flatten(b)
  {
    if a == [] {
      assert a + b == b;
    } else {
      assert (a + b)[1..] == a[1..] + b;
      FlattenAppend(a[1..], b);
    }
  }

  lemma FlattenSingle(u: Unit)
    ensures Flatten([u]) == u.lines
  {
    assert [u][1..] == [];
  }

  /** The lines the loop has taken in so far: those flushed, then those of
      the open section, or before any section, of the introduction. */
  function Consumed(st: ScanState): seq<string> {
    Flatten(st.emitted) + (if st.current != [] then st.current else st.initial)
  }

  /** What a section heading flushes (lines 58-72): the open section, or,
      at the first heading, the introduction if it has any lines. */
  function Flushed(st: ScanState): (r: seq<Unit>)
    ensures |r| <= 1
    ensures Flatten(r) == if st.current != [] then st.current else st.initial
    ensures st.current == [] && st.initial == [] ==> r == []
    ensures forall u :: u in r ==> u.filename == st.filename && u.lines != []
  {
    if st.current != [] then [Unit(st.filename, st.current)]
    else if st.initial != [] then [Unit(st.filename, st.initial)]
    else []
  }

  /** One turn of the loop (lines 55-93): a heading flushes what is open
      and opens its own section under the name `name` gives it; any other
      line joins the open section, or before any section, the
      introduction. */
  function Step(st: ScanState, line: string, name: Namer): ScanState {
    if IsBoundary(line) then Open(st, line, [line], name)
    else if st.current != [] then
      st.(current := st.current + [line])
    else
      st.(initial := st.initial + [line])
  }

  /** The variables once the heading `line` has flushed what was open and
      the lines `section` of its own section have been taken in. */
  function Open(st: ScanState, line: string, section: seq<string>, name: Namer): ScanState {
    var naming := name(line, st.fileCount);
    ScanState(st.emitted + Flushed(st), st.initial, section, naming.filename, naming.fileCount)
  }

  /** At a heading the turn opens the heading's section. */
  lemma StepAtBoundary(st: ScanState, line: string, name: Namer)
    requires IsBoundary(line)
    ensures Step(st, line, name) == Open(st, line, [line], name)
  {
  }

  /** A turn of the loop loses no line and takes none twice, only ever
      appends to what was flushed, and keeps a section open from the first
      heading on. */
  lemma StepConsumes(st: ScanState, line: string, name: Namer)
    ensures Consumed(Step(st, line, name)) == Consumed(st) + [line]
    ensures Step(st, line, name).current != [] <==> st.current != [] || IsBoundary(line)
    ensures IsBoundary(line) ==> Step(st, line, name).current == [line]
    ensures var e := Step(st, line, name).emitted;
      |st.emitted| <= |e| <= |st.emitted| + 1 && e[..|st.emitted|] == st.emitted
  {
    if IsBoundary(line) {
      FlattenAppend(st.emitted, Flushed(st));
      assert (st.emitted + Flushed(st))[..|st.emitted|] == st.emitted;
    }
  }

  /** The loop run over `lines` from the state `st`. */
  function Run(st: ScanState, lines: seq<string>, name: Namer): ScanState
    decreases |lines|
  {
    if lines == [] then st else Run(Step(st, lines[0], name), lines[1..], name)
  }

  /** One more turn of the loop over `content` from position `i`. */
  lemma RunStep(st: ScanState, content: seq<string>, i: nat, name: Namer)
    requires i < |content|
    ensures Run(st, content[i..], name) == Run(Step(st, content[i], name), content[i + 1..], name)
  {
    assert content[i..][0] == content[i] && content[i..][1..] == content[i + 1..];
  }

  /** After the loop (lines 95-102): only the open section is flushed; an
      introduction never followed by a section is not written. */
  function Finish(st: ScanState): seq<Unit> {
    st.emitted + (if st.current != [] then [Unit(st.filename, st.current)] else [])
  }

  /** The units `split_markdown_file` writes for the body `content`, in the
      order it writes them. */
  function Split(content: seq<string>): seq<Unit> {
    Finish(Run(Start, content, NameSection))
  }

  lemma {:induction false} RunAppend(st: ScanState, a: seq<string>, b: seq<string>, name: Namer)
    ensures Run(st, a + b, name) == Run(Run(st, a, name), b, name)
    decreases |a|
  {
    if a == [] {
      assert a + b == b;
    } else {
      assert (a + b)[0] == a[0] && (a + b)[1..] == a[1..] + b;
      RunAppend(Step(st, a[0], name), a[1..], b, name);
    }
  }

  /** No line of `lines` opens a section. */
  predicate NoBoundary(lines: seq<string>) {
    forall i :: 0 <= i < |lines| ==> !IsBoundary(lines[i])
  }

  /** Some line of the body opens a section. */
  predicate HasBoundary(content: seq<string>) {
    !NoBoundary(content)
  }

  /** Lines that open no section are appended to the open section, or
      before any section, to the introduction. */
  lemma {:induction false} RunBody(st: ScanState, lines: seq<string>, name: Namer)
    requires NoBoundary(lines)
    ensures Run(st, lines, name) ==
      if st.current != [] then st.(current := st.current + lines)
      else st.(initial := st.initial + lines)
    decreases |lines|
  {
    if lines != [] {
      RunBody(Step(st, lines[0], name), lines[1..], name);
      assert st.current + [lines[0]] + lines[1..] == st.current + lines;
      assert st.initial + [lines[0]] + lines[1..] == st.initial + lines;
    }
  }

  // ---------------------------------------------------------------------
  // The reference: what the cut must be, stated without the loop.
  // ---------------------------------------------------------------------

  /** The longest prefix of `lines` that opens no section. */
  function LeadingBody(lines: seq<string>): (r: seq<string>)
    ensures |r| <= |lines| && r == lines[..|r|] && NoBoundary(r)
    ensures |r| < |lines| ==> IsBoundary(lines[|r|])
  {
    if lines != [] && !IsBoundary(lines[0]) then [lines[0]] + LeadingBody(lines[1..]) else []
  }

  /** The length of the section that `lines` starts with: its heading and
      the lines up to the next heading. */
  function SectionLength(lines: seq<string>): (k: nat)
    requires lines != []
    ensures 1 <= k <= |lines| && NoBoundary(lines[1..k])
    ensures k < |lines| ==> IsBoundary(lines[k])
  {
    var body := LeadingBody(lines[1..]);
    assert lines[1..1 + |body|] == body;
    assert 1 + |body| < |lines| ==> lines[1 + |body|] == lines[1..][|body|];
    1 + |body|
  }

  /** The sections of `lines`, which is empty or starts with a heading:
      each heading with the lines up to the next heading, named by `name`
      after the heading; `fileCount` counts the unnumbered headings before
      them. */
  function Sections(lines: seq<string>, fileCount: nat, name: Namer): seq<Unit>
    requires lines == [] || IsBoundary(lines[0])
    decreases |lines|
  {
    if lines == [] then []
    else
      var k := SectionLength(lines);
      var naming := name(lines[0], fileCount);
      [Unit(naming.filename, lines[..k])] + Sections(lines[k..], naming.fileCount, name)
  }

  /** The introduction, if it has any lines. */
  function IntroUnits(intro: seq<string>): seq<Unit> {
    if intro == [] then [] else [Unit(IntroName, intro)]
  }

  /** The expected output: nothing when the body has no level-two heading;
      otherwise the introduction (if any) and then the sections. */
  function Expected(content: seq<string>, name: Namer): seq<Unit> {
    var intro := LeadingBody(content);
    if |intro| == |content| then []
    else IntroUnits(intro) + Sections(content[|intro|..], 0, name)
  }

  /** A heading starts the loop's turn by opening its own section. */
  lemma RunHeading(st: ScanState, lines: seq<string>, name: Namer)
    requires lines != [] && IsBoundary(lines[0])
    ensures Run(st, lines, name) == Run(Open(st, lines[0], [lines[0]], name), lines[1..], name)
  {
  }

  /** The loop over a heading and the lines of its section: what was open
      is flushed, and the section is open under the heading's name. */
  lemma RunFirstSection(st: ScanState, lines: seq<string>, name: Namer)
    requires lines != [] && IsBoundary(lines[0])
    ensures Run(st, lines, name)
      == Run(Open(st, lines[0], lines[..SectionLength(lines)], name), lines[SectionLength(lines)..], name)
  {
    var k := SectionLength(lines);
    RunHeading(st, lines, name);
    var st1 := Open(st, lines[0], [lines[0]], name);
    assert lines[1..] == lines[1..k] + lines[k..];
    RunAppend(st1, lines[1..k], lines[k..], name);
    RunBody(st1, lines[1..k], name);
    assert st1.(current := st1.current + lines[1..k]) == Open(st, lines[0], lines[..k], name) by {
      assert [lines[0]] + lines[1..k] == lines[..k];
    }
  }

  /** From an open section, the rest of the loop and the final flush write
      that section and then the sections of what is left. */
  lemma {:induction false} RunSections(st: ScanState, lines: seq<string>, name: Namer)
    requires st.current != []
    requires lines == [] || IsBoundary(lines[0])
    ensures Finish(Run(st, lines, name))
      == st.emitted + [Unit(st.filename, st.current)] + Sections(lines, st.fileCount, name)
    decreases |lines|
  {
    if lines != [] {
      var k := SectionLength(lines);
      var st1 := Open(st, lines[0], lines[..k], name);
      RunFirstSection(st, lines, name);
      RunSections(st1, lines[k..], name);
      SectionsCons(lines, st.fileCount, name);
      UnitsAssoc(st.emitted + [Unit(st.filename, st.current)], [Unit(st1.filename, st1.current)],
        Sections(lines[k..], st1.fileCount, name));
    }
  }

  lemma UnitsAssoc(a: seq<Unit>, b: seq<Unit>, c: seq<Unit>)
    ensures a + b + c == a + (b + c)
  {
  }

  /** Before the first heading every line goes to the introduction. */
  lemma RunIntro(content: seq<string>, name: Namer)
    ensures Run(Start, content, name) ==
      Run(Start.(initial := LeadingBody(content)), content[|LeadingBody(content)|..], name)
  {
    var intro := LeadingBody(content);
    assert content == intro + content[|intro|..];
    RunAppend(Start, intro, content[|intro|..], name);
    RunBody(Start, intro, name);
  }

  /** Once the first heading is reached, the introduction is flushed and
      the sections follow. */
  lemma RunAfterIntro(intro: seq<string>, rest: seq<string>, name: Namer)
    requires rest != [] && IsBoundary(rest[0])
    ensures Finish(Run(Start.(initial := intro), rest, name)) == IntroUnits(intro) + Sections(rest, 0, name)
  {
    var st0 := Start.(initial := intro);
    assert Flushed(st0) == IntroUnits(intro);
    var k := SectionLength(rest);
    var st1 := Open(st0, rest[0], rest[..k], name);
    RunFirstSection(st0, rest, name);
    RunSections(st1, rest[k..], name);
    SectionsCons(rest, 0, name);
    UnitsAssoc(IntroUnits(intro), [Unit(st1.filename, st1.current)], Sections(rest[k..], st1.fileCount, name));
  }

  /** Running the loop over the body, then the final flush, yields exactly
      the expected units, whatever the naming rule. */
  lemma RunMatchesReference(content: seq<string>, name: Namer)
    ensures Finish(Run(Start, content, name)) == Expected(content, name)
  {
    RunIntro(content, name);
    var intro := LeadingBody(content);
    if |intro| < |content| {
      RunAfterIntro(intro, content[|intro|..], name);
    }
  }

  // ---------------------------------------------------------------------
  // What the cut promises.
  // ---------------------------------------------------------------------

  /** A section file: its heading, then lines that open no section. */
  predicate IsSection(u: Unit) {
    u.lines != [] && IsBoundary(u.lines[0]) && NoBoundary(u.lines[1..])
  }

  /** The introduction file: lines before the first heading, none of which
      opens a section. */
  predicate IsIntro(u: Unit) {
    u.filename == IntroName && u.lines != [] && NoBoundary(u.lines)
  }

  /** The number of lines that open a section. */
  function CountBoundaries(lines: seq<string>): nat {
    if lines == [] then 0 else (if IsBoundary(lines[0]) then 1 else 0) + CountBoundaries(lines[1..])
  }

  lemma {:induction false} CountBoundariesAppend(a: seq<string>, b: seq<string>)
    ensures CountBoundaries(a + b) == CountBoundaries(a) + CountBoundaries(b)
  {
    if a == [] {
      assert a + b == b;
    } else {
      assert (a + b)[0] == a[0] && (a + b)[1..] == a[1..] + b;
      CountBoundariesAppend(a[1..], b);
    }
  }

  lemma {:induction false} CountNoBoundary(lines: seq<string>)
    requires NoBoundary(lines)
    ensures CountBoundaries(lines) == 0
  {
    if lines != [] {
      CountNoBoundary(lines[1..]);
    }
  }

  /** The first section, then the sections of the rest. */
  lemma SectionsCons(lines: seq<string>, fileCount: nat, name: Namer)
    requires lines != [] && IsBoundary(lines[0])
    ensures var k := SectionLength(lines);
      var naming := name(lines[0], fileCount);
      (k < |lines| ==> IsBoundary(lines[k])) &&
      Sections(lines, fileCount, name) ==
        [Unit(naming.filename, lines[..k])] + Sections(lines[k..], naming.fileCount, name)
  {
  }

  /** The sections hold every line, in order. */
  lemma {:induction false} SectionsFlatten(lines: seq<string>, fileCount: nat, name: Namer)
    requires lines == [] || IsBoundary(lines[0])
    ensures Flatten(Sections(lines, fileCount, name)) == lines
    decreases |lines|
  {
    if lines != [] {
      var k := SectionLength(lines);
      var naming := name(lines[0], fileCount);
      SectionsCons(lines, fileCount, name);
      SectionsFlatten(lines[k..], naming.fileCount, name);
      assert lines == lines[..k] + lines[k..];
    }
  }

  /** There is one section per heading. */
  lemma {:induction false} SectionsCount(lines: seq<string>, fileCount: nat, name: Namer)
    requires lines == [] || IsBoundary(lines[0])
    ensures |Sections(lines, fileCount, name)| == CountBoundaries(lines)
    decreases |lines|
  {
    if lines != [] {
      var k := SectionLength(lines);
      var naming := name(lines[0], fileCount);
      SectionsCons(lines, fileCount, name);
      SectionsCount(lines[k..], naming.fileCount, name);
      assert lines == lines[..k] + lines[k..];
      CountBoundariesAppend(lines[..k], lines[k..]);
      assert lines[..k] == [lines[0]] + lines[1..k];
      CountBoundariesAppend([lines[0]], lines[1..k]);
      CountNoBoundary(lines[1..k]);
      assert CountBoundaries([lines[0]]) == 1;
    }
  }

  /** Each section is a heading followed by lines that open no section. */
  lemma {:induction false} SectionsWellFormed(lines: seq<string>, fileCount: nat, name: Namer)
    requires lines == [] || IsBoundary(lines[0])
    ensures forall i :: 0 <= i < |Sections(lines, fileCount, name)| ==> IsSection(Sections(lines, fileCount, name)[i])
    decreases |lines|
  {
    if lines != [] {
      var k := SectionLength(lines);
      var naming := name(lines[0], fileCount);
      var u := Unit(naming.filename, lines[..k]);
      var tail := Sections(lines[k..], naming.fileCount, name);
      SectionsCons(lines, fileCount, name);
      SectionsWellFormed(lines[k..], naming.fileCount, name);
      assert lines[..k][1..] == lines[1..k];
      assert IsSection(u);
      var r := [u] + tail;
      forall i | 0 <= i < |r|
        ensures IsSection(r[i])
      {
        if i > 0 {
          assert r[i] == tail[i - 1];
        }
      }
    }
  }

  /** The lines before the first heading give an introduction file, and
      every line of the body is written once, in order, across the files;
      a body without a level-two heading writes nothing at all. */
  lemma RunRoundTrip(content: seq<string>, name: Namer)
    ensures HasBoundary(content) ==> Flatten(Expected(content, name)) == content
    ensures !HasBoundary(content) <==> Expected(content, name) == []
  {
    var intro := LeadingBody(content);
    if |intro| < |content| {
      var rest := content[|intro|..];
      assert rest[0] == content[|intro|];
      SectionsFlatten(rest, 0, name);
      SectionsCons(rest, 0, name);
      FlattenAppend(IntroUnits(intro), Sections(rest, 0, name));
      assert content == intro + rest;
    } else {
      assert content == intro;
    }
  }

  lemma ExpectedShape(intro: seq<string>, rest: seq<string>, name: Namer)
    requires NoBoundary(intro) && rest != [] && IsBoundary(rest[0])
    ensures var units := IntroUnits(intro) + Sections(rest, 0, name);
      units != [] &&
      (forall i :: 0 < i < |units| ==> IsSection(units[i])) &&
      (IsSection(units[0]) || IsIntro(units[0])) &&
      (IsIntro(units[0]) <==> intro != []) &&
      |units| == CountBoundaries(intro + rest) + (if intro != [] then 1 else 0)
  {
    var secs := Sections(rest, 0, name);
    SectionsWellFormed(rest, 0, name);
    SectionsCount(rest, 0, name);
    CountBoundariesAppend(intro, rest);
    CountNoBoundary(intro);
    var units := IntroUnits(intro) + secs;
    if intro == [] {
      assert units == secs;
      assert IsBoundary(units[0].lines[0]);
    } else {
      assert units[0] == Unit(IntroName, intro);
      assert forall i :: 0 < i < |units| ==> units[i] == secs[i - 1];
    }
  }

  /** The files written: an introduction first when the body starts with
      text, then one file per section; one file per heading besides. */
  lemma RunShape(content: seq<string>, name: Namer)
    ensures var units := Expected(content, name);
      (forall i :: 0 < i < |units| ==> IsSection(units[i])) &&
      (units != [] ==> IsSection(units[0]) || IsIntro(units[0])) &&
      (units != [] && IsIntro(units[0]) <==> HasBoundary(content) && !IsBoundary(content[0])) &&
      |units| == CountBoundaries(content) + (if HasBoundary(content) && !IsBoundary(content[0]) then 1 else 0)
  {
    var intro := LeadingBody(content);
    if |intro| < |content| {
      var rest := content[|intro|..];
      assert content == intro + rest;
      assert rest[0] == content[|intro|];
      ExpectedShape(intro, rest, name);
      assert intro != [] ==> content[0] == intro[0];
      assert intro == [] ==> content[0] == rest[0];
    } else {
      assert content == intro;
      CountNoBoundary(content);
    }
  }

  /** The naming rule only ever gives well-formed file names. */
  ghost predicate NamesSafe(name: Namer) {
    forall line: string, c: nat :: SafeFilename(name(line, c).filename)
  }

  /** Under such a rule every section file has a well-formed name. */
  lemma {:induction false} SectionsSafe(lines: seq<string>, fileCount: nat, name: Namer)
    requires NamesSafe(name)
    requires lines == [] || IsBoundary(lines[0])
    ensures forall i :: 0 <= i < |Sections(lines, fileCount, name)| ==> SafeFilename(Sections(lines, fileCount, name)[i].filename)
    decreases |lines|
  {
    if lines != [] {
      var k := SectionLength(lines);
      var naming := name(lines[0], fileCount);
      var tail := Sections(lines[k..], naming.fileCount, name);
      SectionsCons(lines, fileCount, name);
      SectionsSafe(lines[k..], naming.fileCount, name);
      var r := [Unit(naming.filename, lines[..k])] + tail;
      forall i | 0 <= i < |r|
        ensures SafeFilename(r[i].filename)
      {
        if i > 0 {
          assert r[i] == tail[i - 1];
        }
      }
    }
  }

  /** Every file written that is not the introduction has a well-formed
      name. */
  lemma ExpectedSafe(content: seq<string>, name: Namer)
    requires NamesSafe(name)
    ensures forall i :: 0 <= i < |Expected(content, name)| && Expected(content, name)[i].filename != IntroName ==>
      SafeFilename(Expected(content, name)[i].filename)
  {
    var intro := LeadingBody(content);
    if |intro| < |content| {
      var rest := content[|intro|..];
      assert rest[0] == content[|intro|];
      var secs := Sections(rest, 0, name);
      SectionsSafe(rest, 0, name);
      var units := IntroUnits(intro) + secs;
      forall i | 0 <= i < |units| && units[i].filename != IntroName
        ensures SafeFilename(units[i].filename)
      {
        if intro != [] {
          assert units[i] == secs[i - 1];
        } else {
          assert units[i] == secs[i];
        }
      }
    }
  }

  // ---------------------------------------------------------------------
  // The counter of unnumbered headings.
  // ---------------------------------------------------------------------

  /** A heading without a leading `N.`: it takes the next value of
      `file_count`. */
  predicate Unnumbered(line: string) {
    IsBoundary(line) && ParseNumbered(HeadingText(line)).None?
  }

  /** The number of unnumbered headings among `lines`. */
  function CountUnnumbered(lines: seq<string>): nat {
    if lines == [] then 0 else (if Unnumbered(lines[0]) then 1 else 0) + CountUnnumbered(lines[1..])
  }

  lemma {:induction false} CountUnnumberedAppend(a: seq<string>, b: seq<string>)
    ensures CountUnnumbered(a + b) == CountUnnumbered(a) + CountUnnumbered(b)
  {
    if a == [] {
      assert a + b == b;
    } else {
      assert (a + b)[0] == a[0] && (a + b)[1..] == a[1..] + b;
      CountUnnumberedAppend(a[1..], b);
    }
  }

  lemma {:induction false} CountUnnumberedNoBoundary(lines: seq<string>)
    requires NoBoundary(lines)
    ensures CountUnnumbered(lines) == 0
  {
    if lines != [] {
      CountUnnumberedNoBoundary(lines[1..]);
    }
  }

  /** The naming rule advances the counter exactly at unnumbered headings
      and names those after the new value of the counter. */
  ghost predicate CountsUnnumbered(name: Namer) {
    forall line: string, c: nat :: IsBoundary(line) ==>
      name(line, c).fileCount == c + (if Unnumbered(line) then 1 else 0) &&
      (Unnumbered(line) ==> FileNumber(name(line, c).filename) == name(line, c).fileCount)
  }

  /** Unnumbered headings among `units` numbered on from `fileCount`. */
  predicate NumberedFrom(units: seq<Unit>, fileCount: nat) {
    forall i :: 0 <= i < |units| && units[i].lines != [] && Unnumbered(units[i].lines[0]) ==>
      FileNumber(units[i].filename) == fileCount + CountUnnumbered(Flatten(units[..i + 1]))
  }

  lemma NumberedFromHead(u: Unit, tail: seq<Unit>, fileCount: nat)
    requires u.lines != [] && Unnumbered(u.lines[0]) ==>
      FileNumber(u.filename) == fileCount + CountUnnumbered(u.lines)
    ensures var r := [u] + tail;
      r[0].lines != [] && Unnumbered(r[0].lines[0]) ==>
        FileNumber(r[0].filename) == fileCount + CountUnnumbered(Flatten(r[..1]))
  {
    assert ([u] + tail)[..1] == [u];
    FlattenSingle(u);
  }

  lemma NumberedFromTail(u: Unit, tail: seq<Unit>, fileCount: nat, i: nat)
    requires NumberedFrom(tail, fileCount + CountUnnumbered(u.lines))
    requires 0 < i <= |tail|
    ensures var r := [u] + tail;
      r[i].lines != [] && Unnumbered(r[i].lines[0]) ==>
        FileNumber(r[i].filename) == fileCount + CountUnnumbered(Flatten(r[..i + 1]))
  {
    var r := [u] + tail;
    assert r[i] == tail[i - 1];
    assert r[..i + 1] == [u] + tail[..i];
    FlattenAppend([u], tail[..i]);
    FlattenSingle(u);
    CountUnnumberedAppend(u.lines, Flatten(tail[..i]));
  }

  lemma NumberedFromCons(u: Unit, tail: seq<Unit>, fileCount: nat)
    requires u.lines != [] && Unnumbered(u.lines[0]) ==>
      FileNumber(u.filename) == fileCount + CountUnnumbered(u.lines)
    requires NumberedFrom(tail, fileCount + CountUnnumbered(u.lines))
    ensures NumberedFrom([u] + tail, fileCount)
  {
    var r := [u] + tail;
    forall i | 0 <= i < |r| && r[i].lines != [] && Unnumbered(r[i].lines[0])
      ensures FileNumber(r[i].filename) == fileCount + CountUnnumbered(Flatten(r[..i + 1]))
    {
      if i == 0 {
        NumberedFromHead(u, tail, fileCount);
      } else {
        NumberedFromTail(u, tail, fileCount, i);
      }
    }
  }

  /** The unnumbered headings are numbered on from `fileCount` in order of
      appearance, numbered headings in between not counting. */
  lemma {:induction false} SectionsNumbering(lines: seq<string>, fileCount: nat, name: Namer)
    requires CountsUnnumbered(name)
    requires lines == [] || IsBoundary(lines[0])
    ensures NumberedFrom(Sections(lines, fileCount, name), fileCount)
    decreases |lines|
  {
    if lines != [] {
      var k := SectionLength(lines);
      var naming := name(lines[0], fileCount);
      var u := Unit(naming.filename, lines[..k]);
      SectionsCons(lines, fileCount, name);
      FirstSectionNumber(lines, fileCount, name);
      SectionsNumbering(lines[k..], naming.fileCount, name);
      NumberedFromCons(u, Sections(lines[k..], naming.fileCount, name), fileCount);
    }
  }

  /** The first section takes the counter one further exactly when its
      heading is unnumbered, and is then named after the new value. */
  lemma FirstSectionNumber(lines: seq<string>, fileCount: nat, name: Namer)
    requires CountsUnnumbered(name)
    requires lines != [] && IsBoundary(lines[0])
    ensures var section := lines[..SectionLength(lines)];
      var naming := name(lines[0], fileCount);
      naming.fileCount == fileCount + CountUnnumbered(section) &&
      (Unnumbered(section[0]) ==> FileNumber(naming.filename) == fileCount + CountUnnumbered(section))
  {
    SectionCount(lines);
    var naming := name(lines[0], fileCount);
    assert naming.fileCount == fileCount + (if Unnumbered(lines[0]) then 1 else 0);
  }

  /** A section holds one unnumbered heading exactly when its own is. */
  lemma SectionCount(lines: seq<string>)
    requires lines != [] && IsBoundary(lines[0])
    ensures var section := lines[..SectionLength(lines)];
      section != [] && section[0] == lines[0] &&
      CountUnnumbered(section) == if Unnumbered(lines[0]) then 1 else 0
  {
    var k := SectionLength(lines);
    assert lines[..k] == [lines[0]] + lines[1..k];
    CountUnnumberedAppend([lines[0]], lines[1..k]);
    CountUnnumberedNoBoundary(lines[1..k]);
    CountUnnumberedSingle(lines[0]);
  }

  lemma CountUnnumberedSingle(line: string)
    ensures CountUnnumbered([line]) == if Unnumbered(line) then 1 else 0
  {
    assert [line][1..] == [];
  }

  lemma ExpectedNumbering(intro: seq<string>, rest: seq<string>, name: Namer)
    requires CountsUnnumbered(name)
    requires NoBoundary(intro) && rest != [] && IsBoundary(rest[0])
    ensures NumberedFrom(IntroUnits(intro) + Sections(rest, 0, name), 0)
  {
    SectionsNumbering(rest, 0, name);
    if intro == [] {
      assert IntroUnits(intro) + Sections(rest, 0, name) == Sections(rest, 0, name);
    } else {
      var iu := Unit(IntroName, intro);
      IntroNotNumbered(iu);
      NumberedFromCons(iu, Sections(rest, 0, name), 0);
    }
  }

  /** The introduction holds no heading, so it counts none. */
  lemma IntroNotNumbered(iu: Unit)
    requires iu.lines != [] && NoBoundary(iu.lines)
    ensures !Unnumbered(iu.lines[0]) && CountUnnumbered(iu.lines) == 0
  {
    assert !IsBoundary(iu.lines[0]);
    CountUnnumberedNoBoundary(iu.lines);
  }

  // ---------------------------------------------------------------------
  // The cut with the source's naming rule.
  // ---------------------------------------------------------------------

  /** The source's naming rule gives well-formed names and counts the
      unnumbered headings. */
  lemma NameSectionRule()
    ensures NamesSafe(NameSection)
    ensures CountsUnnumbered(NameSection)
  {
    forall line: string, c: nat | IsBoundary(line)
      ensures NameSection(line, c).fileCount == c + (if Unnumbered(line) then 1 else 0)
      ensures Unnumbered(line) ==> FileNumber(NameSection(line, c).filename) == NameSection(line, c).fileCount
    {
    }
  }

  /** `split_markdown_file` writes exactly the expected units. */
  lemma SplitMatchesReference(content: seq<string>)
    ensures Split(content) == Expected(content, NameSection)
  {
    RunMatchesReference(content, NameSection);
  }

  /** Every line of the body is written once, in order, across the files;
      a body without a level-two heading writes nothing at all. */
  lemma SplitRoundTrip(content: seq<string>)
    ensures HasBoundary(content) ==> Flatten(Split(content)) == content
    ensures !HasBoundary(content) <==> Split(content) == []
  {
    SplitMatchesReference(content);
    RunRoundTrip(content, NameSection);
  }

  /** The files written: an introduction first when the body starts with
      text, then one file per section; one file per heading besides; every
      section file has a well-formed name. */
  lemma SplitShape(content: seq<string>)
    ensures forall i :: 0 < i < |Split(content)| ==> IsSection(Split(content)[i])
    ensures Split(content) != [] ==> IsSection(Split(content)[0]) || IsIntro(Split(content)[0])
    ensures Split(content) != [] && IsIntro(Split(content)[0]) <==> HasBoundary(content) && !IsBoundary(content[0])
    ensures |Split(content)| == CountBoundaries(content) + (if HasBoundary(content) && !IsBoundary(content[0]) then 1 else 0)
    ensures forall i :: 0 <= i < |Split(content)| && Split(content)[i].filename != IntroName ==> SafeFilename(Split(content)[i].filename)
  {
    SplitMatchesReference(content);
    RunShape(content, NameSection);
    NameSectionRule();
    ExpectedSafe(content, NameSection);
  }

  /** In the files written, a section whose heading has no number is
      numbered by how many such headings the body has up to and including
      it: 1, 2, 3, ... */
  lemma SplitNumbering(content: seq<string>)
    ensures NumberedFrom(Split(content), 0)
  {
    SplitMatchesReference(content);
    NameSectionRule();
    var intro := LeadingBody(content);
    if |intro| < |content| {
      var rest := content[|intro|..];
      assert rest[0] == content[|intro|];
      ExpectedNumbering(intro, rest, NameSection);
    }
  }
}
