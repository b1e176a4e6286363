/** The steps of the site builder that write files, over a filesystem held
    as a map from path to contents. Each method does what the Python does, in
    its order, and is tied to the function that states its effect. */
module Site {
  import opened Files
  import opened Pages
  import opened Discovery
  import opened Braindump
  import opened Index

  class FileSystem {
    var files: FileMap

    constructor (initial: FileMap)
      ensures files == initial
    {
      files := initial;
    }

    /** `build_html`: open the source for reading, open the output for
        writing (which empties it), read, and either return early for a
        private document or write the page. */
    method BuildHtml(mdFile: Path, htmlFile: Path, hasMeta: bool, skipPrivate: bool, t: Templates, e: Engine)
      returns (status: Status)
      modifies this
      ensures Outcome(files, status) == Pages.BuildHtml(old(files), mdFile, htmlFile, hasMeta, skipPrivate, t, e)
    {
      if mdFile !in files {
        return Failed(FileNotFound(mdFile));
      }
      files := files[htmlFile := ""];
      var content := files[mdFile];
      if hasMeta {
        var parsed := e.parse(content);
        content := parsed.body;
        if IsPrivate(parsed.meta) {
          return Done;
        }
      }
      var markdown := e.render(content);
      files := files[htmlFile := Wrap(t, markdown)];
      return Done;
    }

    /** `convert_braindump`: find the sources of the walk and build each
        into the output folder, stopping at the first missing source. */
    method ConvertBraindump(walk: seq<WalkEntry>, outFolder: Path, t: Templates, e: Engine)
      returns (status: Status)
      modifies this
      ensures Outcome(files, status) == ConvertAll(old(files), MdFilesOf(walk), outFolder, t, e)
    {
      var mdFiles := GetMdFiles(walk);
      for i := 0 to |mdFiles|
        invariant ConvertAll(old(files), mdFiles, outFolder, t, e) == ConvertAll(files, mdFiles[i..], outFolder, t, e)
      {
        var (fileName, mdf) := mdFiles[i];
        assert mdFiles[i..][0] == (fileName, mdf) && mdFiles[i..][1..] == mdFiles[i + 1..];
        if mdf !in files {
          return Failed(FileNotFound(mdf));
        }
        var outputFile := OutputPath(outFolder, fileName);
        status := BuildHtml(mdf, outputFile, true, true, t, e);
        if status.Failed? {
          return;
        }
      }
      return Done;
    }

    /** `build_index`: accumulate the list over the output directory's
        listing and write it, wrapped in the templates, to the index file. */
    method BuildIndex(listing: seq<string>, indexFile: Path, t: Templates)
      modifies this
      ensures files == old(files)[indexFile := Wrap(t, IndexHtml(listing))]
    {
      var content := IndexContent(listing);
      files := files[indexFile := Wrap(t, content)];
    }
  }
}
