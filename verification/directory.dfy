/**
 * The output directory of `split_markdown_file`: a map from file name to the
 * lines written to it. Writing a name again replaces the earlier file, as
 * opening a path with mode "w" does.
 */
module Directory {
  import opened Wrappers
  import opened Segmenter

  /** The output directory: each file name with the lines written to it. */
  class OutputDirectory {
    var files: map<string, seq<string>>

    /** The directory starts empty. */
    constructor ()
      ensures files == map[]
    {
      files := map[];
    }

    /** Lines 59-64: the file `name` is (re)created and receives the front
        matter, if there is any, then the body lines; no other file changes. */
    method WriteFile(name: string, frontMatter: seq<string>, body: seq<string>)
      modifies this
      ensures files == old(files)[name := frontMatter + body]
    {
      var written: seq<string> := [];
      if frontMatter != [] {
        written := written + frontMatter;
      }
      assert written == frontMatter;
      written := written + body;
      files := files[name := written];
    }
  }

  /** The directory `files` after the units are written to it in order. */
  function WriteAll(files: map<string, seq<string>>, frontMatter: seq<string>, units: seq<Unit>): map<string, seq<string>>
  {
    if units == [] then files
    else
      var last := units[|units| - 1];
      WriteAll(files, frontMatter, units[..|units| - 1])[last.filename := frontMatter + last.lines]
  }

  /** Writing one more unit replaces (or adds) just the file of its name. */
  lemma WriteAllSnoc(files: map<string, seq<string>>, frontMatter: seq<string>, units: seq<Unit>, u: Unit)
    ensures WriteAll(files, frontMatter, units + [u]) == WriteAll(files, frontMatter, units)[u.filename := frontMatter + u.lines]
  {
    assert (units + [u])[..|units|] == units;
  }

  /** The position of the last unit written under `name`, if any. */
  function LastNamed(units: seq<Unit>, name: string): (r: Option<nat>)
    ensures r.Some? ==> r.value < |units| && units[r.value].filename == name
    ensures r.Some? ==> forall j :: r.value < j < |units| ==> units[j].filename != name
    ensures r.None? <==> forall j :: 0 <= j < |units| ==> units[j].filename != name
  {
    if units == [] then None
    else if units[|units| - 1].filename == name then Some(|units| - 1)
    else LastNamed(units[..|units| - 1], name)
  }

  /** What a file of the directory holds after the units are written: the
      front matter and the lines of the last unit of that name; a name that
      no unit uses keeps what it had, or stays absent. */
  lemma {:induction false} WriteAllEffect(files: map<string, seq<string>>, frontMatter: seq<string>, units: seq<Unit>, name: string)
    ensures LastNamed(units, name).Some? ==>
      name in WriteAll(files, frontMatter, units) &&
      WriteAll(files, frontMatter, units)[name] == frontMatter + units[LastNamed(units, name).value].lines
    ensures LastNamed(units, name).None? ==>
      (name in WriteAll(files, frontMatter, units) <==> name in files) &&
      (name in files ==> WriteAll(files, frontMatter, units)[name] == files[name])
  {
    if units != [] {
      var init := units[..|units| - 1];
      WriteAllEffect(files, frontMatter, init, name);
      if units[|units| - 1].filename != name {
        var r := LastNamed(units, name);
        assert r == LastNamed(init, name);
        if r.Some? {
          assert units[r.value] == init[r.value];
        }
      }
    }
  }

  /** When no two units share a name, every unit ends up in its own file:
      the front matter followed by exactly that unit's lines. */
  lemma WriteAllDistinct(files: map<string, seq<string>>, frontMatter: seq<string>, units: seq<Unit>, i: nat)
    requires forall j, k :: 0 <= j < k < |units| ==> units[j].filename != units[k].filename
    requires i < |units|
    ensures units[i].filename in WriteAll(files, frontMatter, units)
    ensures WriteAll(files, frontMatter, units)[units[i].filename] == frontMatter + units[i].lines
  {
    WriteAllEffect(files, frontMatter, units, units[i].filename);
    var r := LastNamed(units, units[i].filename);
    assert r.Some?;
  }
}
