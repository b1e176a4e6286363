/** The `Key: Value` metadata header that `create_md_header` writes at the
    top of a new Markdown post, and a reference reader for that format: the
    text is split into lines, the header block is every line before the
    first blank one, and each line holding a ':' is a field. The reader is
    the format's contract, not the metadata library the site builder calls. */
module Header {
  import opened Text
  import opened Wrappers

  /** The key that marks a post private, and the header line that sets it. */
  const PRIVATE_KEY := "Private"
  const PRIVATE_LINE := PRIVATE_KEY + ": " + "True"

  /** The serialiser: the header block of a new post, one `Key: Value` line
      per field, each line ended by a newline, then what `Tail` says. It opens
      with the title line and ends with a blank line, followed in the private
      form by a started `# ` heading.

      The text is grouped line by line, each line with the rest of the text
      after it, which keeps the proofs about splitting it into lines small;
      `PublicHeader` and `PrivateHeader` state the flat f-string forms. */
  function CreateMdHeader(title: string, author: string, date: string, isPrivate: bool): (header: string)
    ensures StartsWith(header, "Title: " + title + "\n")
    ensures EndsWith(header, if isPrivate then "\n\n# " else "\n\n")
  {
    var t, a, d := "Title: " + title, "Author: " + author, "Date: " + date;
    HeaderShape(t, a, d, isPrivate);
    t + "\n" + (a + "\n" + (d + "\n" + Tail(isPrivate)))
  }

  lemma HeaderShape(t: string, a: string, d: string, isPrivate: bool)
    ensures StartsWith(t + "\n" + (a + "\n" + (d + "\n" + Tail(isPrivate))), t + "\n")
    ensures EndsWith(t + "\n" + (a + "\n" + (d + "\n" + Tail(isPrivate))), if isPrivate then "\n\n# " else "\n\n")
  {
    var tail := Tail(isPrivate);
    var rest := d + "\n" + tail;
    var last := if isPrivate then "\n\n# " else "\n\n";
    if isPrivate {
      assert tail == PRIVATE_LINE + "\n\n# " by { Associative(PRIVATE_LINE, "\n", "" + "\n" + "# "); }
      EndsWithAppend(PRIVATE_LINE, "\n\n# ");
      EndsWithLonger(d + "\n", tail, last);
    } else {
      assert rest == d + "\n\n" by { Associative(d, "\n", "\n"); }
      EndsWithAppend(d, "\n\n");
    }
    EndsWithLonger(a + "\n", rest, last);
    EndsWithLonger(t + "\n", a + "\n" + rest, last);
    StartsWithAppend(t + "\n", a + "\n" + rest);
  }

  /** What follows the date line: the private form adds a `Private: True`
      line and leaves a `# ` heading started after the blank line; the public
      form is just the blank line. */
  function Tail(isPrivate: bool): string {
    if isPrivate then PRIVATE_LINE + "\n" + ("" + "\n" + "# ") else "" + "\n" + ""
  }

  lemma Regroup(t: string, a: string, d: string, tail: string)
    ensures t + "\n" + (a + "\n" + (d + "\n" + tail)) == t + "\n" + a + "\n" + d + "\n" + tail
  {
  }

  /** The public header, character for character: the three field lines and
      a blank line. */
  lemma PublicHeader(title: string, author: string, date: string)
    ensures CreateMdHeader(title, author, date, false)
         == "Title: " + title + "\nAuthor: " + author + "\nDate: " + date + "\n\n"
  {
    var t, a, d := "Title: " + title, "Author: " + author, "Date: " + date;
    Regroup(t, a, d, Tail(false));
    assert Tail(false) == "\n";
    assert t + "\n" + a == "Title: " + title + "\nAuthor: " + author;
    assert t + "\n" + a + "\n" + d == "Title: " + title + "\nAuthor: " + author + "\nDate: " + date;
  }

  /** The private header, character for character: the field lines, the
      `Private: True` line, a blank line and a started `# ` heading. */
  lemma PrivateHeader(title: string, author: string, date: string)
    ensures CreateMdHeader(title, author, date, true)
         == "Title: " + title + "\nAuthor: " + author + "\nDate: " + date + "\nPrivate: True\n\n# "
  {
    var t, a, d := "Title: " + title, "Author: " + author, "Date: " + date;
    Regroup(t, a, d, Tail(true));
    assert "\n" + Tail(true) == "\nPrivate: True\n\n# ";
    assert t + "\n" + a == "Title: " + title + "\nAuthor: " + author;
    assert t + "\n" + a + "\n" + d == "Title: " + title + "\nAuthor: " + author + "\nDate: " + date;
  }

  // ---- lines ----

  /** `text.split("\n")` */
  function SplitLines(text: string): (lines: seq<string>)
    ensures |lines| >= 1
    ensures forall i :: 0 <= i < |lines| ==> '\n' !in lines[i]
  {
    if text == "" then [""]
    else
      var rest := SplitLines(text[1..]);
      if text[0] == '\n' then [""] + rest
      else [[text[0]] + rest[0]] + rest[1..]
  }

  lemma {:induction false} SplitLinesSingle(line: string)
    requires '\n' !in line
    ensures SplitLines(line) == [line]
  {
    if line != "" {
      assert line[0] in line;
      SplitLinesSingle(line[1..]);
      assert [line[0]] + line[1..] == line;
    }
  }

  lemma {:induction false} SplitLinesCons(line: string, rest: string)
    requires '\n' !in line
    ensures SplitLines(line + "\n" + rest) == [line] + SplitLines(rest)
  {
    var text := line + "\n" + rest;
    if line == "" {
      assert text[0] == '\n' && text[1..] == rest;
    } else {
      assert line[0] in line;
      assert text[0] == line[0];
      assert text[1..] == line[1..] + "\n" + rest;
      SplitLinesCons(line[1..], rest);
      assert [line[0]] + line[1..] == line;
    }
  }

  /** The lines a header is made of. */
  function HeaderLines(title: string, author: string, date: string, isPrivate: bool): seq<string>
  {
    ["Title: " + title, "Author: " + author, "Date: " + date]
      + (if isPrivate then [PRIVATE_LINE, "", "# "] else ["", ""])
  }

  predicate NoNewline(s: string) {
    '\n' !in s
  }

  lemma SplitThree(t: string, a: string, d: string, tail: string)
    requires '\n' !in t && '\n' !in a && '\n' !in d
    ensures SplitLines(t + "\n" + (a + "\n" + (d + "\n" + tail))) == [t, a, d] + SplitLines(tail)
  {
    SplitLinesCons(d, tail);
    SplitLinesCons(a, d + "\n" + tail);
    SplitLinesCons(t, a + "\n" + (d + "\n" + tail));
  }

  lemma SplitTail(isPrivate: bool)
    ensures SplitLines(Tail(isPrivate)) == if isPrivate then [PRIVATE_LINE, "", "# "] else ["", ""]
  {
    if isPrivate {
      SplitLinesSingle("# ");
      SplitLinesCons("", "# ");
      SplitLinesCons(PRIVATE_LINE, "" + "\n" + "# ");
    } else {
      SplitLinesCons("", "");
    }
  }

  /** Read as lines, a header whose fields hold no newline is the title,
      author and date lines, the `Private: True` line when private, a blank
      line, and the started heading (private) or nothing (public). */
  lemma SplitHeader(title: string, author: string, date: string, isPrivate: bool)
    requires NoNewline(title) && NoNewline(author) && NoNewline(date)
    ensures SplitLines(CreateMdHeader(title, author, date, isPrivate)) == HeaderLines(title, author, date, isPrivate)
  {
    var t, a, d := "Title: " + title, "Author: " + author, "Date: " + date;
    assert '\n' !in t && '\n' !in a && '\n' !in d;
    SplitTail(isPrivate);
    SplitThree(t, a, d, Tail(isPrivate));
  }

  /** The header has a `Private: True` line exactly when it is private. */
  lemma PrivateLineIff(title: string, author: string, date: string, isPrivate: bool)
    requires NoNewline(title) && NoNewline(author) && NoNewline(date)
    ensures PRIVATE_LINE in SplitLines(CreateMdHeader(title, author, date, isPrivate)) <==> isPrivate
  {
    SplitHeader(title, author, date, isPrivate);
    assert ("Title: " + title)[0] == 'T' && ("Author: " + author)[0] == 'A' && ("Date: " + date)[0] == 'D';
  }

  // ---- reference reader ----

  /** The lines before the first blank line. */
  function HeaderBlock(lines: seq<string>): seq<string>
  {
    if lines == [] || lines[0] == "" then [] else [lines[0]] + HeaderBlock(lines[1..])
  }

  /** The header block is the longest prefix of the lines without a blank
      line: a prefix, blank-free, and followed by a blank line if anything. */
  lemma {:induction false} HeaderBlockPrefix(lines: seq<string>)
    ensures var block := HeaderBlock(lines);
      && |block| <= |lines| && block == lines[..|block|]
      && (forall i :: 0 <= i < |block| ==> block[i] != "")
      && (|block| < |lines| ==> lines[|block|] == "")
  {
    if lines != [] && lines[0] != "" {
      HeaderBlockPrefix(lines[1..]);
      var rest := HeaderBlock(lines[1..]);
      assert lines == [lines[0]] + lines[1..];
      assert forall i :: 1 <= i < |rest| + 1 ==> ([lines[0]] + rest)[i] == rest[i - 1];
    }
  }

  /** A `Key: Value` line: the key is what precedes the first ':', the value
      what follows it, less one leading space. A line with no ':' is no field. */
  function Field(line: string): (field: Option<(string, string)>)
    ensures field.Some? <==> ':' in line
    ensures field.Some? ==> ':' !in field.value.0
  {
    var i := IndexOf(line, ':');
    if i == |line| then None
    else
      var rest := line[i + 1..];
      Some((line[..i], if StartsWith(rest, " ") then rest[1..] else rest))
  }

  lemma FieldOf(key: string, value: string)
    requires ':' !in key
    ensures Field(key + ": " + value) == Some((key, value))
  {
    var tail := ": " + value;
    var line := key + tail;
    assert key + ": " + value == line;
    assert IndexOf(line, ':') == |key| by {
      IndexOfAfter(key, tail, ':');
      assert IndexOf(tail, ':') == 0 by { assert tail[0] == ':'; }
    }
    var rest := " " + value;
    assert line[..|key|] == key && line[|key| + 1..] == rest by { assert line[|key| + 1..] == tail[1..]; }
    assert StartsWith(rest, " ") && rest[1..] == value by { assert rest[..1] == " "; }
  }

  /** The fields of a block of lines; a later line for a key wins. */
  function Fields(block: seq<string>): map<string, string>
  {
    if block == [] then map[]
    else
      var later := Fields(block[1..]);
      match Field(block[0])
      case None => later
      case Some(kv) => if kv.0 in later then later else later[kv.0 := kv.1]
  }

  function ReadHeader(text: string): map<string, string> {
    Fields(HeaderBlock(SplitLines(text)))
  }

  lemma FieldsCons(line: string, key: string, value: string, rest: seq<string>)
    requires Field(line) == Some((key, value)) && key !in Fields(rest)
    ensures Fields([line] + rest) == Fields(rest)[key := value]
  {
    assert ([line] + rest)[1..] == rest;
  }

  lemma SingleField(line: string, key: string, value: string)
    requires Field(line) == Some((key, value))
    ensures Fields([line]) == map[key := value]
  {
    FieldsCons(line, key, value, []);
    assert [line] == [line] + [];
  }

  lemma KeyLine(line: string, key: string, value: string)
    requires ':' !in key && line == key + ": " + value
    ensures Field(line) == Some((key, value))
  {
    FieldOf(key, value);
  }

  /** The fields a header is made of. */
  function HeaderFields(title: string, author: string, date: string, isPrivate: bool): map<string, string>
  {
    (if isPrivate then map[PRIVATE_KEY := "True"] else map[])["Date" := date]["Author" := author]["Title" := title]
  }

  lemma FieldsOfPrivateLines(isPrivate: bool)
    ensures Fields(if isPrivate then [PRIVATE_LINE] else []) == if isPrivate then map[PRIVATE_KEY := "True"] else map[]
  {
    if isPrivate {
      PrivateLineField();
      SingleField(PRIVATE_LINE, PRIVATE_KEY, "True");
    }
  }

  lemma FieldsOfBlock(title: string, author: string, date: string, isPrivate: bool)
    ensures Fields(["Title: " + title, "Author: " + author, "Date: " + date] + (if isPrivate then [PRIVATE_LINE] else []))
         == HeaderFields(title, author, date, isPrivate)
  {
    var t, a, d := "Title: " + title, "Author: " + author, "Date: " + date;
    var r0 := if isPrivate then [PRIVATE_LINE] else [];
    var m0 := if isPrivate then map[PRIVATE_KEY := "True"] else map[];
    FieldsOfPrivateLines(isPrivate);
    assert Fields(r0) == m0;
    var r1, r2, r3 := [d] + r0, [a] + ([d] + r0), [t] + ([a] + ([d] + r0));
    KeyLine(d, "Date", date);
    FieldsCons(d, "Date", date, r0);
    assert Fields(r1) == m0["Date" := date];
    KeyLine(a, "Author", author);
    FieldsCons(a, "Author", author, r1);
    assert Fields(r2) == m0["Date" := date]["Author" := author];
    KeyLine(t, "Title", title);
    FieldsCons(t, "Title", title, r2);
    ConsThree(t, a, d, r0);
  }

  /** Reading back a header whose fields hold no newline gives the fields it
      was made from; in particular the `Private` key is present exactly when
      the header was made private. */
  lemma HeaderRoundTrip(title: string, author: string, date: string, isPrivate: bool)
    requires NoNewline(title) && NoNewline(author) && NoNewline(date)
    ensures ReadHeader(CreateMdHeader(title, author, date, isPrivate)) == HeaderFields(title, author, date, isPrivate)
    ensures PRIVATE_KEY in ReadHeader(CreateMdHeader(title, author, date, isPrivate)) <==> isPrivate
  {
    SplitHeader(title, author, date, isPrivate);
    HeaderBlockOf("Title: " + title, "Author: " + author, "Date: " + date, isPrivate);
    FieldsOfBlock(title, author, date, isPrivate);
  }

  lemma HeaderBlockCons(line: string, rest: seq<string>)
    requires line != ""
    ensures HeaderBlock([line] + rest) == [line] + HeaderBlock(rest)
  {
    assert ([line] + rest)[1..] == rest;
  }

  lemma HeaderBlockOf(t: string, a: string, d: string, isPrivate: bool)
    requires t != "" && a != "" && d != ""
    ensures HeaderBlock([t, a, d] + (if isPrivate then [PRIVATE_LINE, "", "# "] else ["", ""]))
         == [t, a, d] + (if isPrivate then [PRIVATE_LINE] else [])
  {
    HeaderBlockTail(isPrivate);
    HeaderBlockThree(t, a, d, if isPrivate then [PRIVATE_LINE, "", "# "] else ["", ""]);
  }

  lemma HeaderBlockTail(isPrivate: bool)
    ensures HeaderBlock(if isPrivate then [PRIVATE_LINE, "", "# "] else ["", ""])
         == if isPrivate then [PRIVATE_LINE] else []
  {
    if isPrivate {
      var rest: seq<string> := ["", "# "];
      assert HeaderBlock(rest) == [];
      assert PRIVATE_LINE != "" by { assert |PRIVATE_LINE| == 13; }
      HeaderBlockCons(PRIVATE_LINE, rest);
      assert [PRIVATE_LINE, "", "# "] == [PRIVATE_LINE] + rest;
      assert [PRIVATE_LINE] + [] == [PRIVATE_LINE];
    }
  }

  lemma HeaderBlockThree(t: string, a: string, d: string, rest: seq<string>)
    requires t != "" && a != "" && d != ""
    ensures HeaderBlock([t, a, d] + rest) == [t, a, d] + HeaderBlock(rest)
  {
    var r1 := [d] + rest;
    var r2 := [a] + r1;
    HeaderBlockCons(d, rest);
    HeaderBlockCons(a, r1);
    HeaderBlockCons(t, r2);
    ConsThree(t, a, d, rest);
    ConsThree(t, a, d, HeaderBlock(rest));
  }

  lemma ConsThree<T>(x: T, y: T, z: T, s: seq<T>)
    ensures [x, y, z] + s == [x] + ([y] + ([z] + s))
  {
  }

  lemma FieldsKeepsLater(line: string, rest: seq<string>)
    ensures Fields(rest).Keys <= Fields([line] + rest).Keys
  {
    assert ([line] + rest)[1..] == rest;
  }

  lemma SmuggledLines(t: string, p: string, a: string, d: string)
    requires '\n' !in t && '\n' !in p && '\n' !in a && '\n' !in d
    ensures SplitLines(t + "\n" + (p + "\n" + (a + "\n" + (d + "\n" + Tail(false))))) == [t] + ([p, a, d] + ["", ""])
  {
    SplitTail(false);
    SplitThree(p, a, d, Tail(false));
    SplitLinesCons(t, p + "\n" + (a + "\n" + (d + "\n" + Tail(false))));
  }

  lemma SmuggledFields(t: string, p: string, a: string, d: string, author: string, date: string)
    requires Field(p) == Some((PRIVATE_KEY, "True")) && a == "Author" + ": " + author && d == "Date" + ": " + date
    ensures PRIVATE_KEY in Fields([t] + [p, a, d])
  {
    KeyLine(a, "Author", author);
    KeyLine(d, "Date", date);
    SingleField(d, "Date", date);
    FieldsCons(a, "Author", author, [d]);
    assert [a, d] == [a] + [d];
    FieldsCons(p, PRIVATE_KEY, "True", [a, d]);
    assert [p, a, d] == [p] + [a, d];
    FieldsKeepsLater(t, [p, a, d]);
  }

  lemma SmuggledHeader(before: string, p: string, author: string, date: string)
    requires NoNewline(before) && NoNewline(p) && NoNewline(author) && NoNewline(date)
    requires Field(p) == Some((PRIVATE_KEY, "True"))
    ensures PRIVATE_KEY in ReadHeader(CreateMdHeader(before + "\n" + p, author, date, false))
  {
    var title := before + "\n" + p;
    var t, a, d := "Title: " + before, "Author: " + author, "Date: " + date;
    var rest := a + "\n" + (d + "\n" + Tail(false));
    var h := CreateMdHeader(title, author, date, false);
    assert h == ("Title: " + title) + "\n" + rest;
    assert ("Title: " + title) + "\n" + rest == t + "\n" + (p + "\n" + rest);
    assert '\n' !in t && '\n' !in a && '\n' !in d;
    SmuggledLines(t, p, a, d);
    var lines := [t] + ([p, a, d] + ["", ""]);
    assert SplitLines(h) == lines;
    HeaderBlockOf(p, a, d, false);
    HeaderBlockCons(t, [p, a, d] + ["", ""]);
    assert HeaderBlock(lines) == [t] + ([p, a, d] + []);
    assert [p, a, d] + [] == [p, a, d];
    SmuggledFields(t, p, a, d, author, date);
  }

  /** The round trip needs newline-free fields: a title that smuggles in a
      `Private: True` line of its own makes a public header read as private. */
  lemma NewlineInTitleReadsPrivate(before: string, author: string, date: string)
    requires NoNewline(before) && NoNewline(author) && NoNewline(date)
    ensures PRIVATE_KEY in ReadHeader(CreateMdHeader(before + "\n" + PRIVATE_LINE, author, date, false))
  {
    PrivateLineField();
    SmuggledHeader(before, PRIVATE_LINE, author, date);
  }

  /** The private line is one line, and it is the field `Private` = `True`. */
  lemma PrivateLineField()
    ensures NoNewline(PRIVATE_LINE) && Field(PRIVATE_LINE) == Some((PRIVATE_KEY, "True"))
  {
    var key, value := PRIVATE_KEY, "True";
    assert ':' !in key;
    assert PRIVATE_LINE == key + ": " + value;
    FieldOf(key, value);
  }
}
