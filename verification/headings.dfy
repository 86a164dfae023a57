/**
 * How a level-two heading line is recognised and turned into the name of the
 * file its section is written to (`split_markdown_file`, lines 56 and 75-86).
 */
module Headings {
  import opened Wrappers
  import opened Text
  import opened Slug

  /** The marker that opens a level-two heading. */
  const Marker: string := "## "

  /** `line.startswith("## ")`: the line opens a new section. */
  predicate IsBoundary(line: string) {
    |line| >= 3 && line[0] == '#' && line[1] == '#' && line[2] == ' '
  }

  /** The character test above is `startswith` with the marker. */
  lemma BoundaryStartsWithMarker(line: string)
    ensures IsBoundary(line) <==> StartsWith(line, Marker)
  {
    if |line| >= 3 {
      assert line[..3][0] == line[0] && line[..3][1] == line[1] && line[..3][2] == line[2];
    }
  }

  /** Level-one and level-three (or deeper) headings never open a section. */
  lemma OtherHeadingsAreNotBoundaries(line: string)
    requires StartsWith(line, "# ") || StartsWith(line, "###")
    ensures !IsBoundary(line)
  {
    if StartsWith(line, "# ") {
      assert line[1] == "# "[1];
    } else {
      assert line[2] == "###"[2];
    }
  }

  /** `line.strip().replace("## ", "")`: the heading text. */
  function HeadingText(line: string): (r: string)
    ensures |r| <= |Strip(line)|
    ensures forall c :: c in r ==> c in line
    ensures r == Strip(line) <==> !Occurs(Strip(line), Marker)
  {
    RemoveAll(Strip(line), Marker)
  }

  /** A heading written as `## ` followed by a title and a newline gives its
      title back, provided the title neither begins nor ends with whitespace
      and holds no `## ` of its own. */
  lemma {:induction false} HeadingTextRoundTrip(t: string)
    requires t != [] && !IsSpace(t[0]) && !IsSpace(t[|t| - 1])
    requires !Occurs(t, Marker)
    ensures HeadingText(Marker + t + "\n") == t
  {
    var line := Marker + t + "\n";
    assert !IsSpace(line[0]);
    assert TrimStart(line) == line;
    assert line[..|line| - 1] == Marker + t;
    assert TrimEnd(line) == TrimEnd(Marker + t);
    assert TrimEnd(Marker + t) == Marker + t;
    assert (Marker + t)[..|Marker|] == Marker && (Marker + t)[|Marker|..] == t;
  }

  /** Every `## ` of the stripped line goes, not only the one that opens
      the heading: `"## A ## B"` has the text `"A B"`. */
  lemma HeadingTextRemovesEvery(line: string)
    requires line == "## A ## B\n"
    ensures HeadingText(line) == "A B"
  {
    var rest := "A ## B";
    StripExample(line, Marker + rest);
    RemoveAllAtStart(Marker, rest);
    SecondMarkerRemoved(rest, "A ", "B");
  }

  lemma SecondMarkerRemoved(rest: string, x: string, y: string)
    requires rest == "A ## B" && x == "A " && y == "B"
    ensures RemoveAll(rest, Marker) == "A B"
  {
    assert rest == x + Marker + y;
    forall i | 0 <= i < |x| ensures !OccursAt(x + Marker + y, Marker, i) {
      assert rest[i] != Marker[0];
    }
    RemoveAllFirst(x, Marker, y);
    assert x + y == "A B";
  }

  lemma StripExample(line: string, stripped: string)
    requires line == "## A ## B\n" && stripped == Marker + "A ## B"
    ensures Strip(line) == stripped
  {
    assert TrimStart(line) == line;
    assert line[..|line| - 1] == stripped;
    assert TrimEnd(stripped) == stripped;
  }

  /** The longest prefix of ASCII decimal digits (what `\d+` takes greedily). */
  function LeadingDigits(s: string): (r: string)
    ensures |r| <= |s| && r == s[..|r|] && AllDigits(r)
    ensures |r| < |s| ==> !IsDigit(s[|r|])
  {
    if s != [] && IsDigit(s[0]) then [s[0]] + LeadingDigits(s[1..]) else []
  }

  /** Digits followed by a non-digit: the digits are the whole digit prefix. */
  lemma {:induction false} LeadingDigitsOf(ds: string, rest: string)
    requires AllDigits(ds) && rest != [] && !IsDigit(rest[0])
    ensures LeadingDigits(ds + rest) == ds
  {
    if ds != [] {
      assert (ds + rest)[1..] == ds[1..] + rest;
      LeadingDigitsOf(ds[1..], rest);
    } else {
      assert ds + rest == rest;
    }
  }

  /** The longest prefix without a line feed (what `.*` takes greedily). */
  function TakeLine(s: string): (r: string)
    ensures |r| <= |s| && r == s[..|r|] && '\n' !in r
    ensures |r| < |s| ==> s[|r|] == '\n'
  {
    if s != [] && s[0] != '\n' then [s[0]] + TakeLine(s[1..]) else []
  }

  /** `title` starts with `k` digits and then a dot. */
  predicate NumberEndsAt(title: string, k: int) {
    0 < k < |title| && AllDigits(title[..k]) && title[k] == '.'
  }

  /** The dot after the number can only come right after the whole digit
      prefix: a regex match has a single place to put it. */
  lemma NumberEndsAtDigits(title: string)
    ensures forall k :: NumberEndsAt(title, k) ==> k == |LeadingDigits(title)|
    ensures (exists k :: NumberEndsAt(title, k)) <==> NumberEndsAt(title, |LeadingDigits(title)|)
  {
    var ds := LeadingDigits(title);
    forall k | NumberEndsAt(title, k)
      ensures k == |ds|
    {
      if k < |ds| {
        assert false;
      } else if k > |ds| {
        assert false;
      }
    }
    if NumberEndsAt(title, |ds|) {
      assert exists k :: NumberEndsAt(title, k);
    }
  }

  /** `re.match(r"(\d+)\.\s*(.*)", title)`: on a match, the number (group 1
      read by `int`) and the title (group 2). */
  function ParseNumbered(title: string): (r: Option<(nat, string)>)
    ensures r.Some? <==> exists k :: NumberEndsAt(title, k)
    ensures forall k :: NumberEndsAt(title, k) ==> r.Some? && r.value.0 == DecimalValue(title[..k])
    ensures r.Some? ==> '\n' !in r.value.1 && (r.value.1 != [] ==> !IsSpace(r.value.1[0]))
  {
    NumberEndsAtDigits(title);
    var ds := LeadingDigits(title);
    if NumberEndsAt(title, |ds|) then
      var t := TakeLine(TrimStart(title[|ds| + 1..]));
      assert t != [] ==> t[0] == TrimStart(title[|ds| + 1..])[0];
      Some((DecimalValue(ds), t))
    else
      None
  }

  /** Writing a number, a dot, some whitespace and a one-line title, and
      parsing it back, gives the number and the title. */
  lemma ParseNumberedRoundTrip(ds: string, gap: string, t: string)
    requires ds != [] && AllDigits(ds)
    requires forall i :: 0 <= i < |gap| ==> IsSpace(gap[i])
    requires '\n' !in t && (t != [] ==> !IsSpace(t[0]))
    ensures ParseNumbered(ds + "." + gap + t) == Some((DecimalValue(ds), t))
  {
    var rest := "." + gap + t;
    var title := ds + rest;
    DotGap(ds, gap, t, rest, title);
    NumberPrefix(ds, rest, title);
    ParseNumberedAt(title, ds);
    TrimStartSkipsGap(gap, t);
    TakeLineWhole(t);
  }

  /** The dot is mandatory: digits followed by anything but a dot (`3 Foo`)
      are not a numbered title. */
  lemma MissingDotIsUnnumbered(ds: string, rest: string)
    requires AllDigits(ds) && rest != [] && rest[0] != '.' && !IsDigit(rest[0])
    ensures ParseNumbered(ds + rest).None?
  {
    LeadingDigitsOf(ds, rest);
    NumberEndsAtDigits(ds + rest);
    assert (ds + rest)[|ds|] == rest[0];
  }

  lemma DotGap(ds: string, gap: string, t: string, rest: string, title: string)
    requires rest == "." + gap + t && title == ds + rest
    ensures ds + "." + gap + t == title
    ensures rest != [] && rest[0] == '.' && rest[1..] == gap + t
  {
  }

  /** Once the digits `ds` are known to end at a dot, the parse is the
      number they spell and the rest of the line after the whitespace. */
  lemma ParseNumberedAt(title: string, ds: string)
    requires LeadingDigits(title) == ds && NumberEndsAt(title, |ds|)
    ensures ParseNumbered(title) == Some((DecimalValue(ds), TakeLine(TrimStart(title[|ds| + 1..]))))
  {
  }

  lemma NumberPrefix(ds: string, rest: string, title: string)
    requires ds != [] && AllDigits(ds) && rest != [] && rest[0] == '.'
    requires title == ds + rest
    ensures LeadingDigits(title) == ds && NumberEndsAt(title, |ds|)
    ensures title[|ds| + 1..] == rest[1..]
  {
    LeadingDigitsOf(ds, rest);
    assert title[..|ds|] == ds;
  }

  lemma {:induction false} TrimStartSkipsGap(gap: string, t: string)
    requires forall i :: 0 <= i < |gap| ==> IsSpace(gap[i])
    requires t != [] ==> !IsSpace(t[0])
    ensures TrimStart(gap + t) == t
  {
    if gap != [] {
      assert (gap + t)[1..] == gap[1..] + t;
      TrimStartSkipsGap(gap[1..], t);
    } else {
      assert gap + t == t;
    }
  }

  lemma {:induction false} TakeLineWhole(t: string)
    requires '\n' !in t
    ensures TakeLine(t) == t
  {
    if t != [] {
      TakeLineWhole(t[1..]);
    }
  }

  /** An output file name: at least two digits (no needless leading zero),
      a hyphen, slug characters, and `.md`. It holds no path separator, so
      the file lands directly in the output directory. */
  predicate SafeFilename(name: string) {
    var d := |LeadingDigits(name)|;
    2 <= d && d + 4 <= |name| && name[d] == '-' && name[|name| - 3..] == ".md" &&
    (d > 2 ==> name[0] != '0') &&
    forall i :: d < i < |name| - 3 ==> IsSlugChar(name[i])
  }

  /** The number written at the head of a file name. */
  function FileNumber(name: string): nat {
    DecimalValue(LeadingDigits(name))
  }

  /** The slug between the number and the extension. */
  function FileSlug(name: string): string
    requires SafeFilename(name)
  {
    name[|LeadingDigits(name)| + 1..|name| - 3]
  }

  lemma PrefixIsPadded(n: nat, slug: string, name: string)
    requires name == Pad2(n) + "-" + slug + ".md"
    ensures LeadingDigits(name) == Pad2(n)
  {
    LeadingDigitsOf(Pad2(n), "-" + slug + ".md");
    assert name == Pad2(n) + ("-" + slug + ".md");
  }

  lemma PaddedNameIsSafe(n: nat, slug: string, name: string)
    requires forall i :: 0 <= i < |slug| ==> IsSlugChar(slug[i])
    requires name == Pad2(n) + "-" + slug + ".md"
    requires LeadingDigits(name) == Pad2(n)
    ensures SafeFilename(name) && FileSlug(name) == slug
  {
    var p := Pad2(n);
    assert name[|p|] == '-';
    assert name[|name| - 3..] == ".md";
    assert forall i :: |p| < i < |name| - 3 ==> name[i] == slug[i - |p| - 1];
    assert name[|p| + 1..|name| - 3] == slug;
  }

  /** `f"{n:02d}-{slug}.md"`. */
  function Filename(n: nat, slug: string): (name: string)
    requires forall i :: 0 <= i < |slug| ==> IsSlugChar(slug[i])
    ensures SafeFilename(name)
    ensures FileNumber(name) == n && FileSlug(name) == slug
  {
    var name := Pad2(n) + "-" + slug + ".md";
    PrefixIsPadded(n, slug, name);
    PaddedNameIsSafe(n, slug, name);
    Pad2RoundTrip(n);
    name
  }

  /** The file name of the section a heading opens, and the counter of
      unnumbered headings after it. */
  datatype Naming = Naming(filename: string, fileCount: nat)

  /** Lines 75-86: a numbered heading `N. Title` is named after its own
      number and title; any other heading takes the next value of the
      counter and is named after its whole text. */
  function NameSection(line: string, fileCount: nat): (r: Naming)
    ensures SafeFilename(r.filename)
    ensures ParseNumbered(HeadingText(line)).Some? ==>
      r.fileCount == fileCount &&
      FileNumber(r.filename) == ParseNumbered(HeadingText(line)).value.0 &&
      FileSlug(r.filename) == Slugify(ParseNumbered(HeadingText(line)).value.1)
    ensures ParseNumbered(HeadingText(line)).None? ==>
      r.fileCount == fileCount + 1 &&
      FileNumber(r.filename) == r.fileCount &&
      FileSlug(r.filename) == Slugify(HeadingText(line))
  {
    var titleFull := HeadingText(line);
    match ParseNumbered(titleFull)
    case Some((num, title)) => Naming(Filename(num, Slugify(title)), fileCount)
    case None => Naming(Filename(fileCount + 1, Slugify(titleFull)), fileCount + 1)
  }

  /** Two names with the same number and slug are the same name, and a
      name is determined by them: distinct numbers or slugs never collide. */
  lemma FilenameInjective(n1: nat, s1: string, n2: nat, s2: string)
    requires forall i :: 0 <= i < |s1| ==> IsSlugChar(s1[i])
    requires forall i :: 0 <= i < |s2| ==> IsSlugChar(s2[i])
    ensures Filename(n1, s1) == Filename(n2, s2) <==> n1 == n2 && s1 == s2
  {
  }

  lemma NumberedTitleEnds(ds: string, t: string, title: string)
    requires ds != [] && AllDigits(ds) && t != [] && title == ds + ". " + t
    ensures title != [] && !IsSpace(title[0]) && title[|title| - 1] == t[|t| - 1]
    ensures title == ds + "." + " " + t
  {
    assert title[0] == ds[0];
  }

  lemma NumberedLine(ds: string, t: string, title: string, line: string)
    requires title == ds + ". " + t && line == Marker + ds + ". " + t + "\n"
    ensures line == Marker + title + "\n"
  {
  }

  /** `## N. Title` is written to `NN-title.md`, after the heading's own
      number, and leaves the counter of unnumbered headings alone. */
  lemma NumberedHeadingName(line: string, ds: string, t: string, fileCount: nat)
    requires line == Marker + ds + ". " + t + "\n"
    requires ds != [] && AllDigits(ds)
    requires t != [] && !IsSpace(t[0]) && !IsSpace(t[|t| - 1]) && '\n' !in t
    requires !Occurs(ds + ". " + t, Marker)
    ensures NameSection(line, fileCount) == Naming(Filename(DecimalValue(ds), Slugify(t)), fileCount)
  {
    NumberedHeadingParse(line, ds, t);
    NamedByNumber(line, fileCount, DecimalValue(ds), t);
  }

  /** The text of `## N. Title` parses as the number `N` and the title. */
  lemma NumberedHeadingParse(line: string, ds: string, t: string)
    requires line == Marker + ds + ". " + t + "\n"
    requires ds != [] && AllDigits(ds)
    requires t != [] && !IsSpace(t[0]) && !IsSpace(t[|t| - 1]) && '\n' !in t
    requires !Occurs(ds + ". " + t, Marker)
    ensures ParseNumbered(HeadingText(line)) == Some((DecimalValue(ds), t))
  {
    NumberedHeadingText(line, ds, t);
    NumberedTitleParses(ds, t, ds + "." + " " + t);
  }

  lemma NumberedTitleParses(ds: string, t: string, title: string)
    requires ds != [] && AllDigits(ds)
    requires t != [] && !IsSpace(t[0]) && '\n' !in t
    requires title == ds + "." + " " + t
    ensures ParseNumbered(title) == Some((DecimalValue(ds), t))
  {
    ParseNumberedRoundTrip(ds, " ", t);
  }

  /** A heading whose text parses as a number and a title is named after
      them, and the counter stays. */
  lemma NamedByNumber(line: string, fileCount: nat, n: nat, t: string)
    requires ParseNumbered(HeadingText(line)) == Some((n, t))
    ensures NameSection(line, fileCount) == Naming(Filename(n, Slugify(t)), fileCount)
  {
  }

  lemma NumberedHeadingText(line: string, ds: string, t: string)
    requires line == Marker + ds + ". " + t + "\n"
    requires ds != [] && AllDigits(ds) && t != [] && !IsSpace(t[|t| - 1])
    requires !Occurs(ds + ". " + t, Marker)
    ensures HeadingText(line) == ds + "." + " " + t
  {
    var title := ds + ". " + t;
    NumberedTitleEnds(ds, t, title);
    NumberedLine(ds, t, title, line);
    HeadingTextRoundTrip(title);
  }

  /** A heading without a number is written under the next value of the
      counter, which it advances. */
  lemma PlainHeadingName(line: string, t: string, fileCount: nat)
    requires line == Marker + t + "\n"
    requires t != [] && !IsSpace(t[0]) && !IsSpace(t[|t| - 1])
    requires !Occurs(t, Marker) && !IsDigit(t[0])
    ensures NameSection(line, fileCount)
      == Naming(Filename(fileCount + 1, Slugify(t)), fileCount + 1)
  {
    HeadingTextRoundTrip(t);
    assert LeadingDigits(t) == [];
    NumberEndsAtDigits(t);
  }
}
