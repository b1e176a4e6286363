/** Finding the Markdown sources of the braindump collection
    (`get_md_files`) and naming their outputs (`convert_braindump`). The
    directory walk is given as the sequence of entries it yields. */
module Discovery {
  import opened Text
  import opened Files

  /** One entry of the walk: a directory, its sub-directories and its files,
      in the order the walk yields them. */
  datatype WalkEntry = WalkEntry(root: Path, folders: seq<string>, files: seq<string>)

  /** A found source: its file name and its path. */
  type Source = (string, Path)

  predicate IsMarkdown(name: string) {
    EndsWith(name, ".md")
  }

  /** The sources found among the files of one directory, in file order:
      at most one per file, each a Markdown name with its joined path. */
  function MdInDir(root: Path, names: seq<string>): (found: seq<Source>)
    ensures |found| <= |names|
    ensures forall i :: 0 <= i < |found| ==> IsMarkdown(found[i].0) && found[i].1 == Join(root, found[i].0)
  {
    if names == [] then []
    else
      var name := names[|names| - 1];
      MdInDir(root, names[..|names| - 1]) + (if IsMarkdown(name) then [(name, Join(root, name))] else [])
  }

  /** The sources found in a walk, directory by directory in walk order;
      every found name is a Markdown name. */
  function MdFilesOf(walk: seq<WalkEntry>): (found: seq<Source>)
    ensures forall i :: 0 <= i < |found| ==> IsMarkdown(found[i].0)
  {
    if walk == [] then []
    else
      var e := walk[|walk| - 1];
      MdFilesOf(walk[..|walk| - 1]) + MdInDir(e.root, e.files)
  }

  /** `get_md_files`: every file of the walk whose name ends in `.md`, paired
      with its joined path, in walk order. */
  method GetMdFiles(walk: seq<WalkEntry>) returns (mdFiles: seq<Source>)
    ensures mdFiles == MdFilesOf(walk)
    ensures forall s :: s in mdFiles <==> FoundIn(walk, s)
  {
    mdFiles := [];
    for k := 0 to |walk|
      invariant mdFiles == MdFilesOf(walk[..k])
    {
      var e := walk[k];
      for j := 0 to |e.files|
        invariant mdFiles == MdFilesOf(walk[..k]) + MdInDir(e.root, e.files[..j])
      {
        var name := e.files[j];
        MdInDirStep(e.root, e.files, j);
        if IsMarkdown(name) {
          Associative(MdFilesOf(walk[..k]), MdInDir(e.root, e.files[..j]), [(name, Join(e.root, name))]);
          mdFiles := mdFiles + [(name, Join(e.root, name))];
        } else {
          assert MdInDir(e.root, e.files[..j]) + [] == MdInDir(e.root, e.files[..j]);
        }
      }
      assert e.files[..|e.files|] == e.files;
      MdFilesStep(walk, k);
    }
    assert walk[..|walk|] == walk;
    MdFilesMembership(walk);
  }

  lemma MdInDirStep(root: Path, names: seq<string>, j: nat)
    requires j < |names|
    ensures MdInDir(root, names[..j + 1])
         == MdInDir(root, names[..j]) + (if IsMarkdown(names[j]) then [(names[j], Join(root, names[j]))] else [])
  {
    assert names[..j + 1][..j] == names[..j];
  }

  lemma MdFilesStep(walk: seq<WalkEntry>, k: nat)
    requires k < |walk|
    ensures MdFilesOf(walk[..k + 1]) == MdFilesOf(walk[..k]) + MdInDir(walk[k].root, walk[k].files)
  {
    assert walk[..k + 1][..k] == walk[..k];
  }

  /** `s` is the name and joined path of a Markdown file among `names`. */
  ghost predicate InDir(root: Path, names: seq<string>, s: Source) {
    exists j :: 0 <= j < |names| && IsMarkdown(names[j]) && s == (names[j], Join(root, names[j]))
  }

  /** `s` is the name and joined path of a Markdown file listed in the walk. */
  ghost predicate FoundIn(walk: seq<WalkEntry>, s: Source) {
    exists i :: 0 <= i < |walk| && InDir(walk[i].root, walk[i].files, s)
  }

  lemma {:induction false} MdInDirMembership(root: Path, names: seq<string>)
    ensures forall s :: s in MdInDir(root, names) <==> InDir(root, names, s)
  {
    if names != [] {
      var init, last := names[..|names| - 1], names[|names| - 1];
      MdInDirMembership(root, init);
      assert names == init + [last];
      forall s ensures InDir(root, init + [last], s) <==> InDir(root, init, s) || InDir(root, [last], s) {
        InDirSnoc(root, init, last, s);
      }
    }
  }

  lemma InDirSnoc(root: Path, init: seq<string>, last: string, s: Source)
    ensures InDir(root, init + [last], s) <==> InDir(root, init, s) || InDir(root, [last], s)
  {
    var names := init + [last];
    if InDir(root, init, s) {
      var j :| 0 <= j < |init| && IsMarkdown(init[j]) && s == (init[j], Join(root, init[j]));
      assert names[j] == init[j];
    }
    if InDir(root, [last], s) {
      assert names[|init|] == last;
    }
    if InDir(root, names, s) {
      var j :| 0 <= j < |names| && IsMarkdown(names[j]) && s == (names[j], Join(root, names[j]));
      if j < |init| {
        assert names[j] == init[j];
      } else {
        assert [last][0] == names[j];
      }
    }
  }

  /** The found sources are exactly the Markdown files of the walk. */
  lemma {:induction false} MdFilesMembership(walk: seq<WalkEntry>)
    ensures forall s :: s in MdFilesOf(walk) <==> FoundIn(walk, s)
  {
    if walk != [] {
      var init, e := walk[..|walk| - 1], walk[|walk| - 1];
      MdFilesMembership(init);
      MdInDirMembership(e.root, e.files);
      MdFilesSnoc(init, e);
      assert walk == init + [e];
      forall s ensures FoundIn(init + [e], s) <==> FoundIn(init, s) || InDir(e.root, e.files, s) {
        FoundInSnoc(init, e, s);
      }
    }
  }

  lemma MdFilesSnoc(walk: seq<WalkEntry>, e: WalkEntry)
    ensures MdFilesOf(walk + [e]) == MdFilesOf(walk) + MdInDir(e.root, e.files)
  {
    assert (walk + [e])[..|walk|] == walk;
  }

  lemma FoundInSnoc(init: seq<WalkEntry>, e: WalkEntry, s: Source)
    ensures FoundIn(init + [e], s) <==> FoundIn(init, s) || InDir(e.root, e.files, s)
  {
    var walk := init + [e];
    if FoundIn(walk, s) {
      var i :| 0 <= i < |walk| && InDir(walk[i].root, walk[i].files, s);
      if i < |init| {
        assert init[i] == walk[i];
      }
    }
    if FoundIn(init, s) {
      var i :| 0 <= i < |init| && InDir(init[i].root, init[i].files, s);
      assert init[i] == walk[i];
    }
    if InDir(e.root, e.files, s) {
      assert walk[|init|] == e;
    }
  }

  /** Walking two parts of a tree one after the other finds the sources of
      the first part, then those of the second: walk order is kept. */
  lemma {:induction false} MdFilesAppend(walk1: seq<WalkEntry>, walk2: seq<WalkEntry>)
    ensures MdFilesOf(walk1 + walk2) == MdFilesOf(walk1) + MdFilesOf(walk2)
  {
    if walk2 == [] {
      assert walk1 + walk2 == walk1;
    } else {
      var init2, e := walk2[..|walk2| - 1], walk2[|walk2| - 1];
      assert walk2 == init2 + [e];
      assert walk1 + walk2 == (walk1 + init2) + [e];
      MdFilesSnoc(walk1 + init2, e);
      MdFilesSnoc(init2, e);
      MdFilesAppend(walk1, init2);
      Associative(MdFilesOf(walk1), MdFilesOf(init2), MdInDir(e.root, e.files));
    }
  }

  /** Every found source is a Markdown file whose path ends with its name. */
  lemma FoundSourcesAreMarkdown(walk: seq<WalkEntry>)
    ensures forall s :: s in MdFilesOf(walk) ==> IsMarkdown(s.0) && EndsWith(s.1, s.0) && IsMarkdown(s.1)
  {
    MdFilesMembership(walk);
    forall s | s in MdFilesOf(walk) ensures IsMarkdown(s.1) {
      MarkdownPath(s.1, s.0);
    }
  }

  lemma MarkdownPath(path: Path, name: string)
    requires EndsWith(path, name) && IsMarkdown(name)
    ensures IsMarkdown(path)
  {
    assert path[|path| - 3..] == name[|name| - 3..];
  }

  /** The output file name of a source: `name[:-3] + ".html"`. It always
      ends in `.html`. */
  function OutputName(name: string): (out: string)
    ensures EndsWith(out, ".html")
  {
    EndsWithAppend(DropLast(name, 3), ".html");
    DropLast(name, 3) + ".html"
  }

  /** For a Markdown name, the output name replaces the 3-character `.md`
      suffix by `.html`: the stem is kept, and appending `.md` to the stem of
      the output gives back the source name. */
  lemma OutputNameStem(name: string)
    requires IsMarkdown(name)
    ensures EndsWith(OutputName(name), ".html")
    ensures DropLast(OutputName(name), 5) + ".md" == name
  {
    DropSuffixRoundTrip(name, ".md");
    EndsWithAppend(DropLast(name, 3), ".html");
    assert DropLast(OutputName(name), 5) == DropLast(name, 3);
  }

  /** The slice is safe only because of the `.md` filter: a name shorter
      than three characters loses all of it. */
  lemma ShortNameLosesStem(name: string)
    requires |name| < 3
    ensures OutputName(name) == ".html"
  {
  }

  /** The path a source is converted to. */
  function OutputPath(outFolder: Path, name: string): (path: Path)
    ensures EndsWith(path, ".html")
  {
    var out := OutputName(name);
    HtmlSuffix(Join(outFolder, out), out);
    Join(outFolder, out)
  }

  lemma HtmlSuffix(path: Path, name: string)
    requires EndsWith(path, name) && EndsWith(name, ".html")
    ensures EndsWith(path, ".html")
  {
    assert path[|path| - 5..] == name[|name| - 5..];
  }

  /** No source path is ever an output path. */
  lemma OutputIsNotSource(outFolder: Path, name: string, path: Path)
    requires IsMarkdown(path)
    ensures OutputPath(outFolder, name) != path
  {
    SuffixesExclusive(path);
  }
}
