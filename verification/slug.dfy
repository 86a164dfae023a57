/**
 * `slugify`: heading text to a file-name token. Three steps, in the order the
 * script applies them:
 *   1. delete every character outside `[a-zA-Z0-9\s-]`;
 *   2. strip surrounding whitespace and lower-case;
 *   3. replace each run of `[-\s]+` by a single `-`.
 * Because step 2 strips only whitespace and runs before step 3, a leading or
 * trailing hyphen survives.
 */
module Slug {
  import opened Text

  /** The characters that survive step 1: `[a-zA-Z0-9\s-]`. */
  predicate Kept(c: char) {
    IsAlnum(c) || IsSpace(c) || c == '-'
  }

  /** The regex class `[-\s]` of step 3. */
  predicate IsSeparator(c: char) {
    c == '-' || IsSpace(c)
  }

  /** The characters a slug may hold. */
  predicate IsSlugChar(c: char) {
    IsLower(c) || IsDigit(c) || c == '-'
  }

  /** No two adjacent hyphens. */
  predicate NoDoubleHyphen(s: string) {
    forall i :: 0 <= i < |s| - 1 ==> !(s[i] == '-' && s[i + 1] == '-')
  }

  /** Step 1, `re.sub(r"[^a-zA-Z0-9\s-]", "", text)`. */
  function DropUnkept(s: string): (r: string)
    ensures forall i :: 0 <= i < |r| ==> Kept(r[i])
    ensures (forall i :: 0 <= i < |s| ==> Kept(s[i])) ==> r == s
    ensures forall c {:trigger multiset(r)[c]} :: multiset(r)[c] == if Kept(c) then multiset(s)[c] else 0
  {
    if s == [] then []
    else
      assert s == [s[0]] + s[1..];
      if Kept(s[0]) then [s[0]] + DropUnkept(s[1..])
      else DropUnkept(s[1..])
  }

  /** Step 3, `re.sub(r"[-\s]+", "-", s)`: each maximal run of hyphens and
      whitespace becomes one hyphen; every other character is copied. The
      hyphen is produced by the last separator of each run. */
  function Collapse(s: string): (r: string)
    ensures forall i :: 0 <= i < |r| ==> !IsSpace(r[i])
    ensures (forall i :: 0 <= i < |s| ==> IsSlugChar(s[i]) || IsSpace(s[i])) ==>
              forall i :: 0 <= i < |r| ==> IsSlugChar(r[i])
    ensures NoDoubleHyphen(r)
    ensures (r != [] && r[0] == '-') <==> (s != [] && IsSeparator(s[0]))
  {
    if s == [] then []
    else if !IsSeparator(s[0]) then [s[0]] + Collapse(s[1..])
    else if |s| > 1 && IsSeparator(s[1]) then Collapse(s[1..])
    else "-" + Collapse(s[1..])
  }

  /** The script's `slugify`. The result is file-name safe: lower-case ASCII
      letters, digits and hyphens only, with no whitespace and never two
      hyphens in a row. */
  function Slugify(text: string): (r: string)
    ensures forall i :: 0 <= i < |r| ==> IsSlugChar(r[i])
    ensures NoDoubleHyphen(r)
  {
    var u := Lower(Strip(DropUnkept(text)));
    assert forall i :: 0 <= i < |u| ==> IsSlugChar(u[i]) || IsSpace(u[i]) by {
      var k := Strip(DropUnkept(text));
      forall i | 0 <= i < |u| ensures IsSlugChar(u[i]) || IsSpace(u[i]) {
        assert k[i] in DropUnkept(text);
      }
    }
    Collapse(u)
  }

  // ----- what slugify keeps: the letters and digits, in order -----

  /** The ASCII letters and digits of `s`, in order. */
  function Alnums(s: string): (r: string)
    ensures |r| <= |s|
  {
    if s == [] then [] else (if IsAlnum(s[0]) then [s[0]] else []) + Alnums(s[1..])
  }

  /** `s` with every hyphen removed. */
  function WithoutHyphens(s: string): string {
    if s == [] then [] else (if s[0] == '-' then [] else [s[0]]) + WithoutHyphens(s[1..])
  }

  lemma {:induction false} AlnumsAppend(a: string, b: string)
    ensures Alnums(a + b) == Alnums(a) + Alnums(b)
  {
    if a == [] {
      assert a + b == b;
    } else {
      var h := if IsAlnum(a[0]) then [a[0]] else [];
      assert (a + b)[0] == a[0];
      assert (a + b)[1..] == a[1..] + b;
      assert Alnums(a + b) == h + Alnums(a[1..] + b);
      AlnumsAppend(a[1..], b);
      ConcatAssoc(h, Alnums(a[1..]), Alnums(b));
    }
  }

  /** A string with no letter or digit contributes nothing. */
  lemma {:induction false} AlnumsNone(s: string)
    requires forall i :: 0 <= i < |s| ==> !IsAlnum(s[i])
    ensures Alnums(s) == []
  {
    if s != [] {
      AlnumsNone(s[1..]);
    }
  }

  lemma {:induction false} DropUnkeptKeepsAlnums(s: string)
    ensures Alnums(DropUnkept(s)) == Alnums(s)
  {
    if s != [] {
      DropUnkeptKeepsAlnums(s[1..]);
      if Kept(s[0]) {
        assert ([s[0]] + DropUnkept(s[1..]))[1..] == DropUnkept(s[1..]);
      }
    }
  }

  lemma TrimStartKeepsAlnums(s: string)
    ensures Alnums(TrimStart(s)) == Alnums(s)
  {
    var t := TrimStart(s);
    var cut := s[..|s| - |t|];
    assert s == cut + t;
    AlnumsAppend(cut, t);
    AlnumsNone(cut);
  }

  lemma TrimEndKeepsAlnums(s: string)
    ensures Alnums(TrimEnd(s)) == Alnums(s)
  {
    var t := TrimEnd(s);
    var cut := s[|t|..];
    assert s == t + cut;
    AlnumsAppend(t, cut);
    AlnumsNone(cut);
  }

  /** Stripping removes only whitespace, so no letter or digit is lost. */
  lemma StripKeepsAlnums(s: string)
    ensures Alnums(Strip(s)) == Alnums(s)
  {
    TrimStartKeepsAlnums(s);
    TrimEndKeepsAlnums(TrimStart(s));
  }

  lemma {:induction false} LowerCommutesWithAlnums(s: string)
    ensures Alnums(Lower(s)) == Lower(Alnums(s))
  {
    if s != [] {
      var h := if IsAlnum(s[0]) then [s[0]] else [];
      LowerCons(s);
      assert Alnums(Lower(s)) == Lower(h) + Alnums(Lower(s[1..]));
      LowerCommutesWithAlnums(s[1..]);
      LowerAppend(h, Alnums(s[1..]));
    }
  }

  lemma LowerCons(s: string)
    requires s != []
    ensures Lower(s) == [LowerChar(s[0])] + Lower(s[1..])
  {
  }

  lemma LowerAppend(a: string, b: string)
    ensures Lower(a + b) == Lower(a) + Lower(b)
  {
  }

  /** On text made of kept characters only, collapsing separator runs leaves
      exactly the letters and digits once the hyphens are taken out. */
  lemma {:induction false} CollapseKeepsAlnums(s: string)
    requires forall i :: 0 <= i < |s| ==> Kept(s[i])
    ensures WithoutHyphens(Collapse(s)) == Alnums(s)
  {
    if s != [] {
      CollapseKeepsAlnums(s[1..]);
      var c := Collapse(s[1..]);
      if !IsSeparator(s[0]) {
        assert ([s[0]] + c)[1..] == c;
      } else if !(|s| > 1 && IsSeparator(s[1])) {
        assert ("-" + c)[1..] == c;
      }
    }
  }

  /** With its hyphens taken out, a slug is the input's ASCII letters and
      digits, lower-cased, in their original order. */
  lemma SlugifyKeepsAlnums(text: string)
    ensures WithoutHyphens(Slugify(text)) == Lower(Alnums(text))
  {
    var d := DropUnkept(text);
    var u := Lower(Strip(d));
    assert forall i :: 0 <= i < |u| ==> Kept(u[i]) by {
      var k := Strip(d);
      forall i | 0 <= i < |u| ensures Kept(u[i]) {
        assert k[i] in d;
      }
    }
    CollapseKeepsAlnums(u);
    LowerCommutesWithAlnums(Strip(d));
    StripKeepsAlnums(d);
    DropUnkeptKeepsAlnums(text);
  }

  // ----- idempotence -----

  /** Collapsing changes nothing in text without whitespace or doubled hyphens. */
  lemma {:induction false} CollapseFixed(s: string)
    requires forall i :: 0 <= i < |s| ==> !IsSpace(s[i])
    requires NoDoubleHyphen(s)
    ensures Collapse(s) == s
  {
    if s != [] {
      var t := s[1..];
      assert forall i :: 0 <= i < |t| ==> !IsSpace(t[i]);
      assert NoDoubleHyphen(t);
      CollapseFixed(t);
      if IsSeparator(s[0]) && |s| > 1 {
        assert s[0] == '-' && !IsSeparator(s[1]);
      }
    }
  }

  /** Text that already has the shape of a slug is left unchanged. */
  lemma SlugUnchanged(s: string)
    requires forall i :: 0 <= i < |s| ==> IsSlugChar(s[i])
    requires NoDoubleHyphen(s)
    ensures Slugify(s) == s
  {
    SlugifySteps(s);
    SlugCharsKept(s);
    SlugCharsStripped(s);
    SlugCharsLower(s);
    SlugCharsNoSpace(s);
    CollapseFixed(s);
  }

  lemma SlugifySteps(text: string)
    ensures Slugify(text) == Collapse(Lower(Strip(DropUnkept(text))))
  {
  }

  lemma SlugCharsNoSpace(s: string)
    requires forall i :: 0 <= i < |s| ==> IsSlugChar(s[i])
    ensures forall i :: 0 <= i < |s| ==> !IsSpace(s[i])
  {
  }

  lemma SlugCharsKept(s: string)
    requires forall i :: 0 <= i < |s| ==> IsSlugChar(s[i])
    ensures DropUnkept(s) == s
  {
    assert forall i :: 0 <= i < |s| ==> Kept(s[i]);
  }

  lemma SlugCharsStripped(s: string)
    requires forall i :: 0 <= i < |s| ==> IsSlugChar(s[i])
    ensures Strip(s) == s
  {
    assert TrimStart(s) == s by {
      if s != [] {
        assert !IsSpace(s[0]);
      }
    }
    assert TrimEnd(s) == s by {
      if s != [] {
        assert !IsSpace(s[|s| - 1]);
      }
    }
  }

  lemma SlugCharsLower(s: string)
    requires forall i :: 0 <= i < |s| ==> IsSlugChar(s[i])
    ensures Lower(s) == s
  {
  }

  /** A slug is its own slug: applying `Slugify` twice gives the result of
      applying it once. */
  lemma SlugifyIdempotent(text: string)
    ensures Slugify(Slugify(text)) == Slugify(text)
  {
    SlugUnchanged(Slugify(text));
  }

  // ----- hyphens at the edges -----

  lemma {:induction false} DropUnkeptAppend(a: string, b: string)
    ensures DropUnkept(a + b) == DropUnkept(a) + DropUnkept(b)
  {
    if a == [] {
      assert a + b == b;
    } else {
      assert (a + b)[0] == a[0];
      assert (a + b)[1..] == a[1..] + b;
      DropUnkeptAppend(a[1..], b);
    }
  }

  /** Text that ends with a separator collapses to text ending with a hyphen. */
  lemma {:induction false} CollapseEnd(s: string)
    requires s != [] && IsSeparator(s[|s| - 1])
    ensures Collapse(s) != [] && Collapse(s)[|Collapse(s)| - 1] == '-'
  {
    if |s| > 1 {
      CollapseEnd(s[1..]);
    }
  }

  /** Stripping keeps a hyphen at the start of the text. */
  lemma StripKeepsLeadingHyphen(d: string)
    requires d != [] && d[0] == '-'
    ensures Strip(d) != [] && Strip(d)[0] == '-'
  {
    assert TrimStart(d) == d;
  }

  /** Stripping keeps a hyphen at the end of the text. */
  lemma StripKeepsTrailingHyphen(d: string)
    requires d != [] && d[|d| - 1] == '-'
    ensures Strip(d) != [] && Strip(d)[|Strip(d)| - 1] == '-'
  {
    var a := TrimStart(d);
    assert a != [] && a[|a| - 1] == '-' by {
      assert d[|d| - 1] == d[|d| - |a|..][|a| - 1];
    }
    assert TrimEnd(a) == a;
  }

  /** A hyphen that opens the heading text also opens its slug: stripping
      removes only whitespace, and it runs before hyphen runs are collapsed. */
  lemma SlugifyKeepsLeadingHyphen(text: string)
    requires text != [] && text[0] == '-'
    ensures Slugify(text) != [] && Slugify(text)[0] == '-'
  {
    DropUnkeptAppend([text[0]], text[1..]);
    assert text == [text[0]] + text[1..];
    StripKeepsLeadingHyphen(DropUnkept(text));
  }

  /** Likewise a hyphen that closes the heading text closes its slug. */
  lemma SlugifyKeepsTrailingHyphen(text: string)
    requires text != [] && text[|text| - 1] == '-'
    ensures Slugify(text) != [] && Slugify(text)[|Slugify(text)| - 1] == '-'
  {
    DropUnkeptAppend(text[..|text| - 1], [text[|text| - 1]]);
    assert text == text[..|text| - 1] + [text[|text| - 1]];
    var d := DropUnkept(text);
    StripKeepsTrailingHyphen(d);
    CollapseEnd(Lower(Strip(d)));
  }

  // ----- phrases of plain words -----

  /** A non-empty run of lower-case letters and digits. */
  predicate IsWord(w: string) {
    w != [] && forall i :: 0 <= i < |w| ==> IsLower(w[i]) || IsDigit(w[i])
  }

  /** The words `ws` joined by `sep`, as Python's `sep.join(ws)`. */
  function JoinWords(ws: seq<string>, sep: char): string {
    if ws == [] then []
    else if |ws| == 1 then ws[0]
    else ws[0] + [sep] + JoinWords(ws[1..], sep)
  }

  lemma {:induction false} JoinWordsStart(ws: seq<string>, sep: char)
    requires |ws| > 0 && ws[0] != []
    ensures JoinWords(ws, sep) != [] && JoinWords(ws, sep)[0] == ws[0][0]
  {
  }

  lemma {:induction false} JoinWordsEnd(ws: seq<string>, sep: char)
    requires |ws| > 0 && ws[|ws| - 1] != []
    ensures JoinWords(ws, sep) != []
    ensures JoinWords(ws, sep)[|JoinWords(ws, sep)| - 1] == ws[|ws| - 1][|ws[|ws| - 1]| - 1]
  {
    if |ws| > 1 {
      JoinWordsEnd(ws[1..], sep);
    }
  }

  /** `Collapse` on a text that starts with the character `c`. */
  lemma CollapseCons(c: char, t: string)
    ensures Collapse([c] + t) ==
      if !IsSeparator(c) then [c] + Collapse(t)
      else if t != [] && IsSeparator(t[0]) then Collapse(t)
      else "-" + Collapse(t)
  {
    assert ([c] + t)[1..] == t;
  }

  /** Two texts that start alike and whose collapsed forms differ by a
      suffix still do so with the same character put in front. */
  lemma CollapseConsSame(c: char, x: string, y: string, suffix: string)
    requires x != [] && y != [] && x[0] == y[0]
    requires Collapse(y) == Collapse(x) + suffix
    ensures Collapse([c] + y) == Collapse([c] + x) + suffix
  {
    if !IsSeparator(c) {
      CollapseConsKept(c, x, y, suffix);
    } else if IsSeparator(x[0]) {
      CollapseConsMerged(c, x, y, suffix);
    } else {
      CollapseConsHyphen(c, x, y, suffix);
    }
  }

  lemma CollapseConsKept(c: char, x: string, y: string, suffix: string)
    requires !IsSeparator(c) && Collapse(y) == Collapse(x) + suffix
    ensures Collapse([c] + y) == Collapse([c] + x) + suffix
  {
    CollapseKeptChar(c, x);
    CollapseKeptChar(c, y);
    ConcatAssoc([c], Collapse(x), suffix);
  }

  lemma CollapseConsMerged(c: char, x: string, y: string, suffix: string)
    requires x != [] && y != [] && x[0] == y[0]
    requires IsSeparator(c) && IsSeparator(x[0]) && Collapse(y) == Collapse(x) + suffix
    ensures Collapse([c] + y) == Collapse([c] + x) + suffix
  {
    CollapseCons(c, x);
    CollapseCons(c, y);
  }

  lemma CollapseConsHyphen(c: char, x: string, y: string, suffix: string)
    requires x != [] && y != [] && x[0] == y[0]
    requires IsSeparator(c) && !IsSeparator(x[0]) && Collapse(y) == Collapse(x) + suffix
    ensures Collapse([c] + y) == Collapse([c] + x) + suffix
  {
    CollapseHyphenChar(c, x);
    CollapseHyphenChar(c, y);
    ConcatAssoc("-", Collapse(x), suffix);
  }

  lemma CollapseKeptChar(c: char, t: string)
    requires !IsSeparator(c)
    ensures Collapse([c] + t) == [c] + Collapse(t)
  {
    assert ([c] + t)[1..] == t;
  }

  lemma CollapseHyphenChar(c: char, t: string)
    requires IsSeparator(c) && (t != [] ==> !IsSeparator(t[0]))
    ensures Collapse([c] + t) == "-" + Collapse(t)
  {
    assert ([c] + t)[1..] == t;
  }

  lemma SplitFirst(a: string, sep: string, b: string)
    requires a != []
    ensures a + sep + b == [a[0]] + (a[1..] + sep + b)
    ensures a == [a[0]] + a[1..]
  {
  }

  lemma ConcatAssoc(p: string, q: string, r: string)
    ensures p + q + r == p + (q + r)
  {
  }

  /** A non-empty run of hyphens and whitespace. */
  predicate IsSeparatorRun(sep: string) {
    sep != [] && forall i :: 0 <= i < |sep| ==> IsSeparator(sep[i])
  }

  /** A maximal run of separators at the start becomes one hyphen, however
      long the run is. */
  lemma {:induction false} CollapseLeadingRun(sep: string, b: string)
    requires IsSeparatorRun(sep) && (b != [] ==> !IsSeparator(b[0]))
    ensures Collapse(sep + b) == "-" + Collapse(b)
    decreases |sep|
  {
    if |sep| == 1 {
      assert sep + b == [sep[0]] + b;
      CollapseHyphenChar(sep[0], b);
    } else {
      var t := sep[1..] + b;
      assert sep + b == [sep[0]] + t;
      assert t[0] == sep[1];
      CollapseCons(sep[0], t);
      CollapseLeadingRun(sep[1..], b);
    }
  }

  /** The inductive step of `CollapseJoin`: one more character in front. */
  lemma CollapseJoinStep(a: string, sep: string, b: string)
    requires |a| > 1
    requires Collapse(a[1..] + sep + b) == Collapse(a[1..]) + "-" + Collapse(b)
    ensures Collapse(a + sep + b) == Collapse(a) + "-" + Collapse(b)
  {
    var t := a[1..] + sep + b;
    SplitFirst(a, sep, b);
    ConcatAssoc(Collapse(a[1..]), "-", Collapse(b));
    CollapseConsSame(a[0], a[1..], t, "-" + Collapse(b));
    ConcatAssoc(Collapse(a), "-", Collapse(b));
  }

  /** A maximal run of separators between two pieces becomes one hyphen
      between their collapsed forms: `"Foo - Bar"` and `"Foo  Bar"` both
      give `"Foo-Bar"`. */
  lemma {:induction false} CollapseJoin(a: string, sep: string, b: string)
    requires a != [] && !IsSeparator(a[|a| - 1])
    requires IsSeparatorRun(sep) && (b != [] ==> !IsSeparator(b[0]))
    ensures Collapse(a + sep + b) == Collapse(a) + "-" + Collapse(b)
  {
    if |a| == 1 {
      SplitFirst(a, sep, b);
      assert a[1..] + sep + b == sep + b;
      CollapseLeadingRun(sep, b);
      CollapseKeptChar(a[0], sep + b);
      CollapseKeptChar(a[0], a[1..]);
      assert Collapse(a[1..]) == [];
      ConcatAssoc(Collapse(a), "-", Collapse(b));
    } else {
      CollapseJoin(a[1..], sep, b);
      CollapseJoinStep(a, sep, b);
    }
  }

  /** Words separated by single spaces collapse to the same words separated
      by single hyphens. */
  lemma {:induction false} CollapseWords(ws: seq<string>)
    requires forall i :: 0 <= i < |ws| ==> IsWord(ws[i])
    ensures Collapse(JoinWords(ws, ' ')) == JoinWords(ws, '-')
  {
    if |ws| == 1 {
      CollapseFixed(ws[0]);
    } else if |ws| > 1 {
      var rest := JoinWords(ws[1..], ' ');
      CollapseWords(ws[1..]);
      JoinWordsStart(ws[1..], ' ');
      CollapseJoin(ws[0], " ", rest);
      CollapseFixed(ws[0]);
    }
  }

  /** When deleting the unwanted characters and lower-casing leaves plain
      words separated by single spaces, the slug is those words joined by
      hyphens. */
  lemma SlugifyPhrase(text: string, ws: seq<string>)
    requires |ws| > 0 && forall i :: 0 <= i < |ws| ==> IsWord(ws[i])
    requires Lower(DropUnkept(text)) == JoinWords(ws, ' ')
    ensures Slugify(text) == JoinWords(ws, '-')
  {
    var d := DropUnkept(text);
    JoinWordsStart(ws, ' ');
    JoinWordsEnd(ws, ' ');
    assert d != [] ==> !IsSpace(d[0]) && !IsSpace(d[|d| - 1]) by {
      if d != [] {
        assert !IsSpace(LowerChar(d[0]));
        assert !IsSpace(LowerChar(d[|d| - 1]));
      }
    }
    assert TrimStart(d) == d;
    assert TrimEnd(d) == d;
    CollapseWords(ws);
  }

  // ----- examples -----

  lemma DocExampleKept(text: string)
    requires text == "Modern Development Toolchain"
    ensures DropUnkept(text) == text
  {
    assert forall i :: 0 <= i < |text| ==> Kept(text[i]);
  }

  lemma DocExampleLower(text: string)
    requires text == "Modern Development Toolchain"
    ensures Lower(text) == "modern development toolchain"
  {
  }

  lemma ExampleWords(ws: seq<string>)
    requires ws == ["modern", "development", "toolchain", "2025"] || ws == ["modern", "development", "toolchain"]
    ensures |ws| > 0 && forall i :: 0 <= i < |ws| ==> IsWord(ws[i])
  {
  }

  lemma DocExampleSpaced(ws: seq<string>)
    requires ws == ["modern", "development", "toolchain"]
    ensures JoinWords(ws, ' ') == "modern development toolchain"
  {
    assert ws[1..] == ["development", "toolchain"];
    assert ws[1..][1..] == ["toolchain"];
    assert JoinWords(ws[1..][1..], ' ') == "toolchain";
    assert JoinWords(ws[1..], ' ') == "development toolchain";
  }

  lemma DocExampleHyphenated(ws: seq<string>)
    requires ws == ["modern", "development", "toolchain"]
    ensures JoinWords(ws, '-') == "modern-development-toolchain"
  {
    assert ws[1..] == ["development", "toolchain"];
    assert ws[1..][1..] == ["toolchain"];
    assert JoinWords(ws[1..][1..], '-') == "toolchain";
    assert JoinWords(ws[1..], '-') == "development-toolchain";
  }

  /** The example in the function's documentation. */
  lemma SlugifyDocExample(text: string)
    requires text == "Modern Development Toolchain"
    ensures Slugify(text) == "modern-development-toolchain"
  {
    var ws := ["modern", "development", "toolchain"];
    DocExampleKept(text);
    DocExampleLower(text);
    ExampleWords(ws);
    DocExampleSpaced(ws);
    DocExampleHyphenated(ws);
    SlugifyPhrase(text, ws);
  }

  lemma PunctuationDropped(mark: string)
    requires mark == "!! ("
    ensures DropUnkept(mark) == " "
  {
    var t1 := mark[1..];
    var t2 := t1[1..];
    var t3 := t2[1..];
    assert t3 == "(" && !Kept(t3[0]) && t3[1..] == [];
    assert DropUnkept(t3) == "";
    assert t2[0] == ' ';
    assert DropUnkept(t2) == " ";
    assert t1[0] == '!';
    assert DropUnkept(t1) == " ";
    assert mark[0] == '!';
  }

  lemma YearKept(year: string)
    requires year == "2025"
    ensures DropUnkept(year) == year
  {
    assert forall i :: 0 <= i < |year| ==> Kept(year[i]);
  }

  lemma ParenDropped(close: string)
    requires close == ")"
    ensures DropUnkept(close) == ""
  {
  }

  lemma DropUnkeptPieces(words: string, mark: string, year: string, close: string)
    requires DropUnkept(words) == words && DropUnkept(mark) == " "
    requires DropUnkept(year) == year && DropUnkept(close) == ""
    ensures DropUnkept(words + mark + year + close) == words + " " + year
  {
    var head, tail := words + mark, year + close;
    DropUnkeptAppend(words, mark);
    DropUnkeptAppend(year, close);
    DropUnkeptAppend(head, tail);
    assert words + mark + year + close == head + tail;
  }

  lemma PunctuationExampleLower(text: string)
    requires text == "Modern Development Toolchain 2025"
    ensures Lower(text) == "modern development toolchain 2025"
  {
  }

  lemma PunctuationExampleSpaced(ws: seq<string>)
    requires ws == ["modern", "development", "toolchain", "2025"]
    ensures JoinWords(ws, ' ') == "modern development toolchain 2025"
  {
    assert ws[1..] == ["development", "toolchain", "2025"];
    assert ws[1..][1..] == ["toolchain", "2025"];
    assert ws[1..][1..][1..] == ["2025"];
    assert JoinWords(ws[1..][1..][1..], ' ') == "2025";
    assert JoinWords(ws[1..][1..], ' ') == "toolchain 2025";
    assert JoinWords(ws[1..], ' ') == "development toolchain 2025";
  }

  lemma PunctuationExampleHyphenated(ws: seq<string>)
    requires ws == ["modern", "development", "toolchain", "2025"]
    ensures JoinWords(ws, '-') == "modern-development-toolchain-2025"
  {
    assert ws[1..] == ["development", "toolchain", "2025"];
    assert ws[1..][1..] == ["toolchain", "2025"];
    assert ws[1..][1..][1..] == ["2025"];
    assert JoinWords(ws[1..][1..][1..], '-') == "2025";
    assert JoinWords(ws[1..][1..], '-') == "toolchain-2025";
    assert JoinWords(ws[1..], '-') == "development-toolchain-2025";
  }

  lemma PunctuationExampleSplit(text: string, words: string, mark: string, year: string, close: string)
    requires text == "Modern Development Toolchain!! (2025)"
    requires words == "Modern Development Toolchain" && mark == "!! (" && year == "2025" && close == ")"
    ensures text == words + mark + year + close
    ensures words + " " + year == "Modern Development Toolchain 2025"
  {
  }

  lemma DropUnkeptPhrase(text: string, words: string, mark: string, year: string, close: string)
    requires text == words + mark + year + close
    requires DropUnkept(words) == words && DropUnkept(mark) == " "
    requires DropUnkept(year) == year && DropUnkept(close) == ""
    ensures DropUnkept(text) == words + " " + year
  {
    DropUnkeptPieces(words, mark, year, close);
  }

  lemma PunctuationExampleDrop(text: string, words: string, mark: string, year: string, close: string)
    requires text == "Modern Development Toolchain!! (2025)"
    requires words == "Modern Development Toolchain" && mark == "!! (" && year == "2025" && close == ")"
    ensures DropUnkept(text) == "Modern Development Toolchain 2025"
  {
    PunctuationExampleSplit(text, words, mark, year, close);
    DocExampleKept(words);
    PunctuationDropped(mark);
    YearKept(year);
    ParenDropped(close);
    DropUnkeptPhrase(text, words, mark, year, close);
  }

  /** Punctuation is deleted before the whitespace runs become hyphens:
      "Modern Development Toolchain!! (2025)" becomes
      "modern-development-toolchain-2025". */
  lemma SlugifyPunctuationExample(text: string)
    requires text == "Modern Development Toolchain!! (2025)"
    ensures Slugify(text) == "modern-development-toolchain-2025"
  {
    var ws := ["modern", "development", "toolchain", "2025"];
    PunctuationExampleDrop(text, "Modern Development Toolchain", "!! (", "2025", ")");
    PunctuationExampleLower(DropUnkept(text));
    ExampleWords(ws);
    PunctuationExampleSpaced(ws);
    PunctuationExampleHyphenated(ws);
    SlugifyPhrase(text, ws);
  }
}
