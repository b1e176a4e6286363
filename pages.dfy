/** Page assembly and the visibility rule of `build_html`: a source whose
    parsed metadata has a `Private` key is skipped, and every other source
    is rendered and wrapped in the page templates. The Markdown renderer and
    the metadata parser are library code and stay abstract: they are the
    two functions of an `Engine`. */
module Pages {
  import opened Text
  import opened Files
  import opened Wrappers
  import Header

  /** The literal head and foot of every page. */
  datatype Templates = Templates(head: string, foot: string)

  /** What the metadata parser returns: the header fields and the body text
      that follows the header. */
  datatype Parsed = Parsed(meta: map<string, string>, body: string)

  /** The Markdown renderer (raw HTML is not escaped) and the metadata parser. */
  datatype Engine = Engine(render: string -> string, parse: string -> Parsed)

  /** The visibility rule: a document is private when its metadata has the
      `Private` key, whatever the key's value. */
  predicate IsPrivate(meta: map<string, string>) {
    Header.PRIVATE_KEY in meta
  }

  /** The page for a rendered body: head, body, foot. */
  function Wrap(t: Templates, html: string): (page: string)
    ensures StartsWith(page, t.head) && EndsWith(page, t.foot)
    ensures |page| == |t.head| + |html| + |t.foot|
    ensures page[|t.head|..|page| - |t.foot|] == html
  {
    var page := t.head + html + t.foot;
    assert page[..|t.head|] == t.head;
    assert page[|page| - |t.foot|..] == t.foot;
    assert page[|t.head|..|page| - |t.foot|] == html;
    page
  }

  /** The body of a page, when the page has the templates around it. */
  function Unwrap(t: Templates, page: string): (html: Option<string>)
    ensures html.Some? ==> Wrap(t, html.value) == page
  {
    if |t.head| + |t.foot| <= |page| && StartsWith(page, t.head) && EndsWith(page, t.foot) then
      var html := page[|t.head|..|page| - |t.foot|];
      assert page == page[..|t.head|] + html + page[|page| - |t.foot|..];
      Some(html)
    else
      None
  }

  /** Unwrapping a page gives back the body it was made from. */
  lemma UnwrapWrap(t: Templates, html: string)
    ensures Unwrap(t, Wrap(t, html)) == Some(html)
  {
  }

  /** Two pages are equal exactly when their bodies are. */
  lemma WrapInjective(t: Templates, html1: string, html2: string)
    ensures Wrap(t, html1) == Wrap(t, html2) <==> html1 == html2
  {
    UnwrapWrap(t, html1);
    UnwrapWrap(t, html2);
  }

  /** The text `build_html` reads from its source: the output is opened for
      writing, which empties it, before the source is read, so a source that
      is also the output reads as empty. */
  function SourceText(fs: FileMap, mdFile: Path, htmlFile: Path): (text: string)
    requires mdFile in fs
    ensures mdFile != htmlFile ==> text == fs[mdFile]
    ensures mdFile == htmlFile ==> text == ""
  {
    fs[htmlFile := ""][mdFile]
  }

  /** What `build_html` leaves in its output for a source text: nothing for
      a private document, otherwise the page of the rendered body, where the
      body is the text after the header when metadata is parsed and the whole
      text when it is not. */
  function Written(t: Templates, e: Engine, text: string, hasMeta: bool): (out: string)
    ensures hasMeta && IsPrivate(e.parse(text).meta) ==> out == ""
    ensures hasMeta && !IsPrivate(e.parse(text).meta) ==> Unwrap(t, out) == Some(e.render(e.parse(text).body))
    ensures !hasMeta ==> Unwrap(t, out) == Some(e.render(text))
  {
    if hasMeta then
      var parsed := e.parse(text);
      if IsPrivate(parsed.meta) then "" else Wrap(t, e.render(parsed.body))
    else
      Wrap(t, e.render(text))
  }

  /** With templates that are not both empty, the output is empty exactly
      when the document was parsed and found private. */
  lemma WrittenEmptyIff(t: Templates, e: Engine, text: string, hasMeta: bool)
    requires t.head != "" || t.foot != ""
    ensures Written(t, e, text, hasMeta) == "" <==> hasMeta && IsPrivate(e.parse(text).meta)
  {
  }

  /** `build_html(md_file, html_file, has_meta, skip_private)`. A missing
      source raises before anything is opened for writing. Otherwise the
      output is emptied, the source is read and, when metadata is parsed and
      the document is private, the step returns with the output left empty;
      else the page is written. `skipPrivate` is never read. */
  function BuildHtml(fs: FileMap, mdFile: Path, htmlFile: Path, hasMeta: bool, skipPrivate: bool,
                     t: Templates, e: Engine): (o: Outcome)
    ensures o.status.Failed? <==> mdFile !in fs
    ensures o.status.Failed? ==> o.status.error == FileNotFound(mdFile) && o.files == fs
    ensures o.status.Done? ==> o.files.Keys == fs.Keys + {htmlFile}
    ensures o.status.Done? ==> o.files[htmlFile] == Written(t, e, SourceText(fs, mdFile, htmlFile), hasMeta)
    ensures forall p :: p in fs && p != htmlFile ==> p in o.files && o.files[p] == fs[p]
  {
    if mdFile !in fs then
      Outcome(fs, Failed(FileNotFound(mdFile)))
    else
      var truncated := fs[htmlFile := ""];
      var content := truncated[mdFile];
      if hasMeta && IsPrivate(e.parse(content).meta) then
        Outcome(truncated, Done)
      else
        var body := if hasMeta then e.parse(content).body else content;
        Outcome(truncated[htmlFile := Wrap(t, e.render(body))], Done)
  }

  /** A private source leaves its output existing and empty. */
  lemma PrivateLeavesEmptyOutput(fs: FileMap, mdFile: Path, htmlFile: Path, skipPrivate: bool, t: Templates, e: Engine)
    requires mdFile in fs && mdFile != htmlFile && IsPrivate(e.parse(fs[mdFile]).meta)
    ensures var o := BuildHtml(fs, mdFile, htmlFile, true, skipPrivate, t, e);
      o.status == Done && htmlFile in o.files && o.files[htmlFile] == ""
  {
  }

  /** A public source's output is the page of its rendered body. */
  lemma PublicOutputIsPage(fs: FileMap, mdFile: Path, htmlFile: Path, skipPrivate: bool, t: Templates, e: Engine)
    requires mdFile in fs && mdFile != htmlFile && !IsPrivate(e.parse(fs[mdFile]).meta)
    ensures var o := BuildHtml(fs, mdFile, htmlFile, true, skipPrivate, t, e);
      o.status == Done && htmlFile in o.files
      && o.files[htmlFile] == Wrap(t, e.render(e.parse(fs[mdFile]).body))
  {
    var o := BuildHtml(fs, mdFile, htmlFile, true, skipPrivate, t, e);
    UnwrapWrap(t, e.render(e.parse(fs[mdFile]).body));
    assert Unwrap(t, o.files[htmlFile]) == Some(e.render(e.parse(fs[mdFile]).body));
  }

  /** Without metadata the parser is never consulted: two engines with the
      same renderer build the same output, the page of the whole text. */
  lemma NoMetaSkipsParser(fs: FileMap, mdFile: Path, htmlFile: Path, skipPrivate: bool,
                          t: Templates, e1: Engine, e2: Engine)
    requires mdFile in fs && mdFile != htmlFile && e1.render == e2.render
    ensures BuildHtml(fs, mdFile, htmlFile, false, skipPrivate, t, e1)
         == BuildHtml(fs, mdFile, htmlFile, false, skipPrivate, t, e2)
    ensures BuildHtml(fs, mdFile, htmlFile, false, skipPrivate, t, e1).files[htmlFile]
         == Wrap(t, e1.render(fs[mdFile]))
  {
  }

  /** The `skip_private` argument has no effect: private documents are
      skipped even when it is false. */
  lemma SkipPrivateIgnored(fs: FileMap, mdFile: Path, htmlFile: Path, hasMeta: bool, t: Templates, e: Engine)
    ensures BuildHtml(fs, mdFile, htmlFile, hasMeta, false, t, e) == BuildHtml(fs, mdFile, htmlFile, hasMeta, true, t, e)
  {
  }
}
