# A model of a personal-site builder

The site builder in `src/build.py` turns a folder of Markdown notes (the
"braindump") into HTML pages. It also writes an archive page that links to
every page in the output folder. The template for a new note's metadata
header is part of it too. This project models that builder in Dafny and
proves what it does:

- **Header** (`header.dfy`): `create_md_header` writes the `Key: Value`
  header of a new note, in a public form and a private form. A reference
  reader for the format splits the text into lines, takes the lines before
  the first blank one, and turns each line holding a `:` into a field. The
  write-then-read round trip is proved. So is the case that breaks it: a
  title that holds a newline.
- **Pages** (`pages.dfy`): `build_html` and its visibility rule. A note
  whose parsed metadata has the `Private` key is skipped. Every other note
  is rendered and wrapped in the page head and foot. The Markdown renderer
  (`mistune.markdown`) and the metadata parser (`mc.parse`) are library
  code. They stay abstract, as the two functions of an `Engine`. The head
  and foot are the two strings of a `Templates` value.
- **Discovery** (`discovery.dfy`): `get_md_files` over a directory walk,
  which is given as the sequence of `(root, folders, files)` entries it
  yields. It also covers how `convert_braindump` names each output:
  `name[:-3] + ".html"` joined to the output folder.
- **Index** (`index.dfy`): the list that `build_index` builds from a
  directory listing. It is `<ul>`, then one
  `<li><a href='/NAME'>STEM</a></li>` line per `.html` name in listing
  order, then `</ul>`.
- **Braindump** (`braindump.dfy`): the conversion loop of
  `convert_braindump`, as a function over the filesystem.
- **Site** (`site.dfy`): the steps that write files. `FileSystem` is a
  class whose `files` map (path to contents) its methods update in place.
  Each method does what the Python does, in the Python's order, and its
  `ensures` ties the new map to the specification function of the same
  step.
- `text.dfy` gives the exact meaning of the Python built-ins used:
  `str.endswith`, the slice `s[:-k]` and two-argument `os.path.join` on
  POSIX. `files.dfy` holds the filesystem types. `wrappers.dfy` holds
  `Option`.

A Python exception is modelled as an `Outcome(files, status)`. In it,
`Failed(FileNotFound(path))` keeps every file written before the failure.

Points where the code behaves differently from what one might expect, each
modelled as the code does it:

- `build_html` opens the output for writing, which empties it, before it
  reads the input (`src/build.py:37-39`). A private note therefore leaves an
  empty output file behind. It does not leave no file at all, and
  `build_index` then lists that empty page like any other. If the input and
  output are the same path, the input reads as empty.
- The `skip_private` parameter of `build_html` is never read. Private notes
  are skipped however it is set (`Pages.SkipPrivateIgnored`).
- Any value of the `Private` key makes a note private, `Private: False`
  included.
- The index follows the order of the directory listing. It does not sort.

## Model

| member | source | states |
|---|---|---|
| Header.CreateMdHeader | src/build.py:60-65 | the header opens with the `Title: T` line and ends with a blank line, followed by a started `# ` heading in the private form |
| Header.PublicHeader | src/build.py:65 | the public header is exactly `Title: T\nAuthor: A\nDate: D\n\n` |
| Header.PrivateHeader | src/build.py:63-64 | the private header is exactly `Title: T\nAuthor: A\nDate: D\nPrivate: True\n\n# ` |
| Header.SplitHeader | src/build.py:63-65 | split at newlines, a header with newline-free fields is the three field lines, then `Private: True` when private, then a blank line and either the started `# ` heading (private) or an empty last line (public) |
| Header.PrivateLineIff | src/build.py:63-65 | the header has a `Private: True` line if and only if it was made private |
| Header.HeaderRoundTrip | src/build.py:60-65 | reading a header back gives exactly the title, author and date it was made from, plus `Private = True` when private; the `Private` key is present if and only if the header was made private |
| Header.NewlineInTitleReadsPrivate | src/build.py:65 | counterexample to the round trip without the newline-free requirement: a public header whose title ends in a newline and `Private: True` reads as private |
| Header.SmuggledHeader | src/build.py:65 | more generally, a title carrying any second line that reads as the field `Private` makes a public header read as private |
| Pages.IsPrivate | src/build.py:42 | a note is private when its parsed metadata has the `Private` key, whatever the value |
| Pages.Wrap | src/build.py:45 | a page starts with the head, ends with the foot, and what lies between is exactly the rendered body |
| Pages.UnwrapWrap | src/build.py:45 | stripping the head and foot off a page gives back the body it was made from |
| Pages.WrapInjective | src/build.py:45 | two pages are equal if and only if their bodies are |
| Pages.SourceText | src/build.py:37-39 | the text read is the source's contents, or empty when the source is the output, since the output is emptied first |
| Pages.Written | src/build.py:40-46 | the output is empty for a private note; otherwise unwrapping it gives the rendering of the body after the header, or of the whole text when metadata is not parsed |
| Pages.WrittenEmptyIff | src/build.py:40-46 | with a non-empty head or foot, the output is empty if and only if metadata was parsed and the note is private |
| Pages.BuildHtml | src/build.py:36-46 | fails if and only if the source is missing, and then changes nothing and names the source; otherwise the output exists and holds what `Written` says for the text read, and every other file is unchanged |
| Pages.PrivateLeavesEmptyOutput | src/build.py:38-43 | a private note succeeds and leaves its output existing and empty |
| Pages.PublicOutputIsPage | src/build.py:40-46 | a public note's output is head, rendered body and foot |
| Pages.NoMetaSkipsParser | src/build.py:40-45 | without metadata the parser is never consulted: two engines with the same renderer give the same result, the page of the whole text |
| Pages.SkipPrivateIgnored | src/build.py:36-43 | the result is the same whatever `skip_private` is |
| Discovery.MdInDir | src/build.py:53-55 | the sources of one directory: at most one per file, each a `.md` name paired with its joined path |
| Discovery.MdFilesOf | src/build.py:51-55 | every source found in the walk has a `.md` name |
| Discovery.GetMdFiles | src/build.py:49-57 | the nested loop returns the walk-order list of `(name, join(root, name))` for the `.md` files, and a pair is in the result if and only if it is such a file of the walk |
| Discovery.MdFilesMembership | src/build.py:51-55 | a pair is found if and only if it names a `.md` file of some walk entry with its joined path |
| Discovery.MdFilesAppend | src/build.py:51-55 | walking two parts one after the other finds the first part's files, then the second's: walk order is kept |
| Discovery.FoundSourcesAreMarkdown | src/build.py:53-55 | every found name and path ends in `.md`, and the path ends with the name |
| Discovery.OutputName | src/build.py:74 | the output file name always ends in `.html` |
| Discovery.OutputNameStem | src/build.py:74 | for a `.md` name, the output name ends in `.html`, and its stem with `.md` appended is the source name again |
| Discovery.ShortNameLosesStem | src/build.py:74 | a name shorter than three characters loses all of itself to the slice, so the output name is just `.html` |
| Discovery.OutputPath | src/build.py:74 | every output path ends in `.html` |
| Discovery.OutputIsNotSource | src/build.py:74 | no path ending in `.md`, as every source path does, is ever an output path, so a build never overwrites a source |
| Text.Join | src/build.py:54 | the joined path ends with the name, and starts with the root unless the name is absolute or the root is empty |
| Text.DropLast | src/build.py:74 | `s[:-k]` is `s` without its last `k` characters, or empty when `s` is shorter than `k` |
| Index.HtmlNames | src/build.py:80-81 | the names that get an entry are no more than the listed ones, and each ends in `.html` |
| Index.Item | src/build.py:82 | an entry opens a link to `/NAME` and closes the list item and its line |
| Index.Items | src/build.py:82 | the entry text of a name sequence is empty if and only if there are no names |
| Index.IndexHtml | src/build.py:79-83 | the list opens with `<ul>` and closes with `</ul>` |
| Index.IndexContent | src/build.py:79-83 | the accumulating loop returns `<ul>`, the entries of the listing's `.html` names in listing order, and `</ul>` |
| Index.IndexStep | src/build.py:80-82 | one turn of the loop adds the next name's entry when it ends in `.html`, and nothing otherwise |
| Index.HtmlNamesMembership | src/build.py:80-82 | a name gets an entry if and only if it is listed and ends in `.html` |
| Index.HtmlNamesAppend | src/build.py:80-82 | the entries of two listings one after the other are the first's, then the second's |
| Index.ItemsAppend | src/build.py:82 | the entry text of two name sequences is the first's text followed by the second's |
| Index.IndexOfConcatenation | src/build.py:79-83 | the list of a concatenated listing holds the first part's entries, then the second part's |
| Index.AddOneName | src/build.py:80-83 | listing one more `.html` name adds exactly its entry before `</ul>`; any other name leaves the list as it was |
| Index.EntryCount | src/build.py:80-82 | each `.html` name gets as many entries as it is listed, and no other name gets one |
| Index.ItemLinksToName | src/build.py:82 | each entry links to `/NAME`, and its text is the stem that gives back NAME with `.html` appended |
| Braindump.ConvertAll | src/build.py:70-75 | the run never removes a file: every file there before is there after, whether the run finishes or fails |
| Braindump.BuildStep | src/build.py:72-75 | when the first source exists, the run builds it into its output, adding only that file and changing no other, then goes on with the rest; for a `.md` source the output holds what `build_html` writes for that source's contents |
| Braindump.ConvertFrame | src/build.py:70-75 | the run changes only output files, and creates no file that is not an output |
| Braindump.ConvertSucceedsIff | src/build.py:70-75 | for `.md` sources the run finishes if and only if every source exists; a failure names the first missing source in walk order, and every source before it exists |
| Braindump.ConvertOutputs | src/build.py:70-75 | with distinct output names, each source the run reached (it and every source before it exist) has its output holding what `build_html` writes for it: the page of the rendered body, or nothing for a private note; after a finished run that is every source, after a failed one every source before the missing one |
| Braindump.PostListedUnderStem | src/build.py:82 | a note's output, once listed, gets an index entry whose text is the note's own stem |
| Site.FileSystem.BuildHtml | src/build.py:36-46 | opening, emptying, reading, parsing, rendering and writing step by step leaves the filesystem and status that `Pages.BuildHtml` states |
| Site.FileSystem.ConvertBraindump | src/build.py:67-75 | finding the sources and building each in turn, stopping at the first missing one, leaves the filesystem and status that `Braindump.ConvertAll` states for the walk's sources |
| Site.FileSystem.BuildIndex | src/build.py:78-86 | the index file is replaced by the page of the list for the listing, and nothing else changes |

## Left out

- The Markdown renderer and the metadata parser are abstract functions. Their behaviour, including what `mc.parse` takes for a header, is not modelled. The header reader in `header.dfy` is the format's reference reader, not that library.
- The literal HTML of `template_head` and `template_foot` (`src/build.py:13-34`) is a parameter.
- Real file I/O: the filesystem is a map from path to contents. Only a missing source is an error. Write failures, missing directories, permissions, encodings and newline translation in text mode are not modelled.
- `os.walk` and `os.listdir` are inputs (the entries and names they yield, in their order). The listing is not derived from the filesystem map.
- The `datetime.now()` default of `create_md_header` (`src/build.py:61-62`) reads the clock. The date is a parameter, and so are the `title` and `author` defaults.
- The `config` paths (`src/build.py:7-11`) are parameters: the braindump walk, the output folder and the index file. `main()` (`src/build.py:88-94`) and the top-level `build.py` only call the steps in order and are not modelled.
- Header.HeaderRoundTrip: requires newline-free title, author and date, because a newline in a field splits it into extra lines (see Header.NewlineInTitleReadsPrivate).
- Header.PrivateLineIff: requires newline-free title, author and date, for the same reason.
- Braindump.ConvertOutputs: states each output's contents only when no two sources share an output name. With a clash, the last source built wins, and this is not stated.
- Pages.PrivateLeavesEmptyOutput: requires the source and output to differ. When they are the same path, the text read is empty; `Pages.BuildHtml` states that case.
- Pages.PublicOutputIsPage: requires the source and output to differ, for the same reason.
- Pages.NoMetaSkipsParser: requires the source and output to differ, for the same reason.
