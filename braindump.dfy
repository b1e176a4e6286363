/** `convert_braindump`: every found source is built into the output folder
    under its output name, one after the other, and the first missing source
    stops the run with what was written so far kept. */
module Braindump {
  import opened Text
  import opened Files
  import opened Pages
  import opened Discovery
  import Index

  /** The outputs the sources are built into. */
  ghost predicate IsOutputOf(sources: seq<Source>, outFolder: Path, p: Path) {
    exists i :: 0 <= i < |sources| && OutputPath(outFolder, sources[i].0) == p
  }

  /** The conversion loop, source by source: the source is opened for
      reading (raising when missing), then built with metadata parsing on. */
  function ConvertAll(fs: FileMap, sources: seq<Source>, outFolder: Path, t: Templates, e: Engine): (o: Outcome)
    decreases |sources|
    ensures fs.Keys <= o.files.Keys
  {
    if sources == [] then
      Outcome(fs, Done)
    else
      var (name, path) := sources[0];
      if path !in fs then
        Outcome(fs, Failed(FileNotFound(path)))
      else
        var built := Pages.BuildHtml(fs, path, OutputPath(outFolder, name), true, true, t, e);
        if built.status.Failed? then built else ConvertAll(built.files, sources[1..], outFolder, t, e)
  }

  /** Only output files are written: every other file is kept as it was, and
      no file is created outside the outputs. */
  lemma {:induction false} ConvertFrame(fs: FileMap, sources: seq<Source>, outFolder: Path, t: Templates, e: Engine)
    decreases |sources|
    ensures var o := ConvertAll(fs, sources, outFolder, t, e);
      && (forall p :: p in fs && !IsOutputOf(sources, outFolder, p) ==> p in o.files && o.files[p] == fs[p])
      && (forall p :: p in o.files ==> p in fs || IsOutputOf(sources, outFolder, p))
  {
    if sources != [] && sources[0].1 in fs {
      var fs2 := Pages.BuildHtml(fs, sources[0].1, OutputPath(outFolder, sources[0].0), true, true, t, e).files;
      BuildStep(fs, sources, outFolder, t, e);
      ConvertFrame(fs2, sources[1..], outFolder, t, e);
      OutputsOfRest(sources, outFolder);
    }
  }

  /** The outputs of the sources are the first one's and those of the rest. */
  lemma OutputsOfRest(sources: seq<Source>, outFolder: Path)
    requires sources != []
    ensures IsOutputOf(sources, outFolder, OutputPath(outFolder, sources[0].0))
    ensures forall p :: IsOutputOf(sources[1..], outFolder, p) ==> IsOutputOf(sources, outFolder, p)
  {
    forall p | IsOutputOf(sources[1..], outFolder, p) ensures IsOutputOf(sources, outFolder, p) {
      var i :| 0 <= i < |sources[1..]| && OutputPath(outFolder, sources[1..][i].0) == p;
      assert sources[i + 1] == sources[1..][i];
    }
  }

  predicate AllMarkdown(sources: seq<Source>) {
    forall i :: 0 <= i < |sources| ==> IsMarkdown(sources[i].1)
  }

  /** For Markdown sources, the run finishes exactly when every source file
      exists; otherwise it fails on the first missing one in walk order. */
  lemma {:induction false} ConvertSucceedsIff(fs: FileMap, sources: seq<Source>, outFolder: Path, t: Templates, e: Engine)
    requires AllMarkdown(sources)
    decreases |sources|
    ensures var o := ConvertAll(fs, sources, outFolder, t, e);
      && (o.status.Done? <==> AllPresent(fs, sources))
      && (o.status.Failed? ==> MissingNamed(fs, sources, o.status.error))
  {
    if sources != [] {
      var (name, path) := sources[0];
      AllPresentCons(fs, sources);
      if path in fs {
        var out := OutputPath(outFolder, name);
        var built := Pages.BuildHtml(fs, path, out, true, true, t, e);
        var rest := sources[1..];
        RestMarkdown(sources);
        ConvertSucceedsIff(built.files, rest, outFolder, t, e);
        SameSources(fs, built.files, rest, out);
        var o := ConvertAll(fs, sources, outFolder, t, e);
        if o.status.Failed? {
          MissingShift(fs, built.files, sources, out, o.status.error);
        }
      } else {
        assert sources[0].1 !in fs && AllPresent(fs, sources[..0]);
      }
    }
  }

  /** Every source file exists. */
  predicate AllPresent(fs: FileMap, sources: seq<Source>) {
    forall i :: 0 <= i < |sources| ==> sources[i].1 in fs
  }

  /** `error` names the first source file, in walk order, that does not
      exist: every source before it exists. */
  ghost predicate MissingNamed(fs: FileMap, sources: seq<Source>, error: IoError) {
    exists i :: 0 <= i < |sources| && sources[i].1 !in fs && error == FileNotFound(sources[i].1)
      && AllPresent(fs, sources[..i])
  }

  lemma AllPresentCons(fs: FileMap, sources: seq<Source>)
    requires sources != []
    ensures AllPresent(fs, sources) <==> sources[0].1 in fs && AllPresent(fs, sources[1..])
  {
    if sources[0].1 in fs && AllPresent(fs, sources[1..]) {
      forall i | 1 <= i < |sources| ensures sources[i].1 in fs { assert sources[i] == sources[1..][i - 1]; }
    }
  }

  lemma RestMarkdown(sources: seq<Source>)
    requires sources != [] && AllMarkdown(sources)
    ensures AllMarkdown(sources[1..])
  {
    forall i | 0 <= i < |sources| - 1 ensures IsMarkdown(sources[1..][i].1) { assert sources[1..][i] == sources[i + 1]; }
  }

  /** Building one output does not make any Markdown source appear or
      disappear. */
  lemma SameSources(fs: FileMap, fs2: FileMap, sources: seq<Source>, out: Path)
    requires AllMarkdown(sources) && fs2.Keys == fs.Keys + {out} && EndsWith(out, ".html")
    ensures AllPresent(fs2, sources) <==> AllPresent(fs, sources)
    ensures forall i :: 0 <= i < |sources| ==> (sources[i].1 in fs2 <==> sources[i].1 in fs)
  {
    forall i | 0 <= i < |sources| ensures sources[i].1 in fs2 <==> sources[i].1 in fs {
      SuffixesExclusive(sources[i].1);
    }
  }

  lemma MissingShift(fs: FileMap, fs2: FileMap, sources: seq<Source>, out: Path, error: IoError)
    requires sources != [] && sources[0].1 in fs
    requires AllMarkdown(sources[1..]) && fs2.Keys == fs.Keys + {out} && EndsWith(out, ".html")
    requires MissingNamed(fs2, sources[1..], error)
    ensures MissingNamed(fs, sources, error)
  {
    var rest := sources[1..];
    SameSources(fs, fs2, rest, out);
    var i :| 0 <= i < |rest| && rest[i].1 !in fs2 && error == FileNotFound(rest[i].1) && AllPresent(fs2, rest[..i]);
    assert sources[i + 1] == rest[i];
    var before := sources[..i + 1];
    forall j | 0 <= j < |before| ensures before[j].1 in fs {
      if j > 0 {
        assert before[j] == rest[..i][j - 1];
      }
    }
  }

  predicate DistinctOutputs(sources: seq<Source>, outFolder: Path) {
    forall i, j :: 0 <= i < j < |sources| ==> OutputPath(outFolder, sources[i].0) != OutputPath(outFolder, sources[j].0)
  }

  lemma RestOfSources(sources: seq<Source>, outFolder: Path)
    requires sources != [] && AllMarkdown(sources) && DistinctOutputs(sources, outFolder)
    ensures AllMarkdown(sources[1..]) && DistinctOutputs(sources[1..], outFolder)
    ensures !IsOutputOf(sources[1..], outFolder, OutputPath(outFolder, sources[0].0))
  {
    var rest := sources[1..];
    RestMarkdown(sources);
    forall i, j | 0 <= i < j < |rest|
      ensures OutputPath(outFolder, rest[i].0) != OutputPath(outFolder, rest[j].0)
    {
      assert rest[i] == sources[i + 1] && rest[j] == sources[j + 1];
    }
    forall i | 0 <= i < |rest| ensures OutputPath(outFolder, rest[i].0) != OutputPath(outFolder, sources[0].0) {
      assert rest[i] == sources[i + 1];
    }
  }

  /** Source `i` is reached by the run: it and every source before it
      exists. */
  predicate Reached(fs: FileMap, sources: seq<Source>, i: nat)
    requires i < |sources|
  {
    forall j :: 0 <= j <= i ==> sources[j].1 in fs
  }

  /** When no two sources share an output name, each reached source has its
      output holding what `build_html` writes for it: the page of the
      rendered body, or nothing at all for a private document. After a
      finished run that is every source; after a failed one it is every
      source before the missing one. */
  lemma {:induction false} ConvertOutputs(fs: FileMap, sources: seq<Source>, outFolder: Path, t: Templates, e: Engine)
    requires AllMarkdown(sources) && DistinctOutputs(sources, outFolder)
    decreases |sources|
    ensures forall i :: 0 <= i < |sources| && Reached(fs, sources, i) ==>
      var o := ConvertAll(fs, sources, outFolder, t, e);
      sources[i].1 in fs && OutputPath(outFolder, sources[i].0) in o.files
      && o.files[OutputPath(outFolder, sources[i].0)] == Written(t, e, fs[sources[i].1], true)
  {
    if sources != [] && sources[0].1 in fs {
      var (name, path) := sources[0];
      var out := OutputPath(outFolder, name);
      var fs2 := Pages.BuildHtml(fs, path, out, true, true, t, e).files;
      var rest := sources[1..];
      var o := ConvertAll(fs, sources, outFolder, t, e);
      BuildStep(fs, sources, outFolder, t, e);
      RestOfSources(sources, outFolder);
      ConvertOutputs(fs2, rest, outFolder, t, e);
      ConvertFrame(fs2, rest, outFolder, t, e);
      assert o.files[out] == Written(t, e, fs[path], true);
      forall i | 1 <= i < |sources| && Reached(fs, sources, i)
        ensures sources[i].1 in fs && OutputPath(outFolder, sources[i].0) in o.files
             && o.files[OutputPath(outFolder, sources[i].0)] == Written(t, e, fs[sources[i].1], true)
      {
        ReachedShift(fs, fs2, sources, i);
        assert sources[i] == rest[i - 1];
        OutputIsNotSource(outFolder, name, sources[i].1);
      }
    }
  }

  /** A run whose first source exists builds it, keeping every file, and
      goes on with the rest. */
  lemma BuildStep(fs: FileMap, sources: seq<Source>, outFolder: Path, t: Templates, e: Engine)
    requires sources != [] && sources[0].1 in fs
    ensures var out := OutputPath(outFolder, sources[0].0);
      var fs2 := Pages.BuildHtml(fs, sources[0].1, out, true, true, t, e).files;
      && ConvertAll(fs, sources, outFolder, t, e) == ConvertAll(fs2, sources[1..], outFolder, t, e)
      && fs2.Keys == fs.Keys + {out}
      && (forall p :: p in fs && p != out ==> fs2[p] == fs[p])
      && (IsMarkdown(sources[0].1) ==> fs2[out] == Written(t, e, fs[sources[0].1], true))
  {
    if IsMarkdown(sources[0].1) {
      OutputIsNotSource(outFolder, sources[0].0, sources[0].1);
    }
  }

  /** A source reached in a filesystem is reached among the later sources in
      any filesystem that keeps every file. */
  lemma ReachedShift(fs: FileMap, fs2: FileMap, sources: seq<Source>, i: nat)
    requires fs.Keys <= fs2.Keys && 1 <= i < |sources| && Reached(fs, sources, i)
    ensures Reached(fs2, sources[1..], i - 1)
  {
    forall j | 0 <= j <= i - 1 ensures sources[1..][j].1 in fs2 {
      assert sources[1..][j] == sources[j + 1];
    }
  }

  /** A post's output, listed in the output folder, gets an index entry whose
      text is the post's own stem. This holds for a private post too, whose
      output exists and is empty. */
  lemma PostListedUnderStem(listing: seq<string>, name: string)
    requires IsMarkdown(name) && OutputName(name) in listing
    ensures OutputName(name) in Index.HtmlNames(listing)
    ensures Index.Item(OutputName(name)) == "<li><a href='/" + OutputName(name) + "'>" + DropLast(name, 3) + "</a></li>\n"
  {
    OutputNameStem(name);
    Index.HtmlNamesMembership(listing);
    assert DropLast(OutputName(name), 5) == DropLast(name, 3);
  }
}
