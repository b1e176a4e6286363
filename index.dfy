/** The index page of `build_index`: a `<ul>` list with one link per `.html`
    name of the output directory's listing, in listing order. */
module Index {
  import opened Text

  predicate IsHtml(name: string) {
    EndsWith(name, ".html")
  }

  /** The names of the listing that get an entry, in listing order: no more
      than were listed, each ending in `.html`. */
  function HtmlNames(listing: seq<string>): (names: seq<string>)
    ensures |names| <= |listing|
    ensures forall i :: 0 <= i < |names| ==> IsHtml(names[i])
  {
    if listing == [] then []
    else
      var name := listing[|listing| - 1];
      HtmlNames(listing[..|listing| - 1]) + (if IsHtml(name) then [name] else [])
  }

  /** The entry for one name: a link to `/NAME` whose text is NAME without
      its last five characters. It opens the link to NAME and closes the list
      item and its line. */
  function Item(name: string): (item: string)
    ensures StartsWith(item, "<li><a href='/" + name + "'>")
    ensures EndsWith(item, "</a></li>\n")
  {
    var open := "<li><a href='/" + name + "'>";
    StartsWithAppend(open, DropLast(name, 5) + "</a></li>\n");
    Associative(open, DropLast(name, 5), "</a></li>\n");
    EndsWithAppend(open + DropLast(name, 5), "</a></li>\n");
    open + DropLast(name, 5) + "</a></li>\n"
  }

  /** The entries for a sequence of names, one after the other; the text is
      empty exactly when there are no names. */
  function Items(names: seq<string>): (text: string)
    ensures text == "" <==> names == []
  {
    if names == [] then "" else Item(names[0]) + Items(names[1..])
  }

  lemma ItemsSnoc(names: seq<string>, name: string)
    ensures Items(names + [name]) == Items(names) + Item(name)
  {
    ItemsAppend(names, [name]);
    assert [name][1..] == [];
    assert Item(name) + "" == Item(name);
  }

  /** The list for a listing: it opens with `<ul>` and closes with `</ul>`. */
  function IndexHtml(listing: seq<string>): (html: string)
    ensures StartsWith(html, "<ul>") && EndsWith(html, "</ul>")
  {
    var body := Items(HtmlNames(listing));
    EndsWithAppend("<ul>" + body, "</ul>");
    Associative("<ul>", body, "</ul>");
    StartsWithAppend("<ul>", body + "</ul>");
    "<ul>" + body + "</ul>"
  }

  /** The loop of `build_index` that accumulates the list. */
  method IndexContent(listing: seq<string>) returns (content: string)
    ensures content == IndexHtml(listing)
    ensures StartsWith(content, "<ul>") && EndsWith(content, "</ul>")
  {
    content := "<ul>";
    for k := 0 to |listing|
      invariant content == "<ul>" + Items(HtmlNames(listing[..k]))
    {
      var file := listing[k];
      IndexStep(listing, k);
      if IsHtml(file) {
        content := content + Item(file);
      }
    }
    assert listing[..|listing|] == listing;
    content := content + "</ul>";
  }

  /** One turn of the loop: the next listed name adds its entry when it ends
      in `.html`, and nothing otherwise. */
  lemma IndexStep(listing: seq<string>, k: nat)
    requires k < |listing|
    ensures IsHtml(listing[k]) ==>
      "<ul>" + Items(HtmlNames(listing[..k + 1])) == "<ul>" + Items(HtmlNames(listing[..k])) + Item(listing[k])
    ensures !IsHtml(listing[k]) ==> Items(HtmlNames(listing[..k + 1])) == Items(HtmlNames(listing[..k]))
  {
    var done := HtmlNames(listing[..k]);
    var file := listing[k];
    assert listing[..k + 1][..k] == listing[..k];
    assert HtmlNames(listing[..k + 1]) == done + (if IsHtml(file) then [file] else []);
    if IsHtml(file) {
      ItemsSnoc(done, file);
      Associative("<ul>", Items(done), Item(file));
    } else {
      assert done + [] == done;
    }
  }

  /** A name gets an entry exactly when it is listed and ends in `.html`. */
  lemma {:induction false} HtmlNamesMembership(listing: seq<string>)
    ensures forall n :: n in HtmlNames(listing) <==> n in listing && IsHtml(n)
  {
    if listing != [] {
      var init := listing[..|listing| - 1];
      HtmlNamesMembership(init);
      assert listing == init + [listing[|listing| - 1]];
    }
  }

  /** The entries of two listings one after the other are those of the first
      followed by those of the second: listing order is kept. */
  lemma {:induction false} HtmlNamesAppend(l1: seq<string>, l2: seq<string>)
    ensures HtmlNames(l1 + l2) == HtmlNames(l1) + HtmlNames(l2)
  {
    if l2 == [] {
      assert l1 + l2 == l1;
    } else {
      var init2 := l2[..|l2| - 1];
      assert (l1 + l2)[..|l1 + l2| - 1] == l1 + init2;
      HtmlNamesAppend(l1, init2);
    }
  }

  /** The entries of two name sequences one after the other. */
  lemma {:induction false} ItemsAppend(n1: seq<string>, n2: seq<string>)
    ensures Items(n1 + n2) == Items(n1) + Items(n2)
  {
    if n1 == [] {
      assert n1 + n2 == n2;
    } else {
      assert (n1 + n2)[0] == n1[0] && (n1 + n2)[1..] == n1[1..] + n2;
      ItemsAppend(n1[1..], n2);
      Associative(Item(n1[0]), Items(n1[1..]), Items(n2));
    }
  }

  /** The list of a concatenated listing: the entries of the first part, then
      those of the second. */
  lemma IndexOfConcatenation(l1: seq<string>, l2: seq<string>)
    ensures IndexHtml(l1 + l2) == "<ul>" + Items(HtmlNames(l1)) + Items(HtmlNames(l2)) + "</ul>"
  {
    HtmlNamesAppend(l1, l2);
    ItemsAppend(HtmlNames(l1), HtmlNames(l2));
    Associative("<ul>", Items(HtmlNames(l1)), Items(HtmlNames(l2)));
  }

  /** Adding one name to the listing adds exactly its entry, at the end, when
      it ends in `.html`, and changes nothing otherwise. */
  lemma AddOneName(listing: seq<string>, name: string)
    ensures IsHtml(name) ==>
      IndexHtml(listing + [name]) == "<ul>" + Items(HtmlNames(listing)) + Item(name) + "</ul>"
    ensures !IsHtml(name) ==> IndexHtml(listing + [name]) == IndexHtml(listing)
  {
    AddOneItem(listing, name);
    var a := Items(HtmlNames(listing));
    if IsHtml(name) {
      Associative("<ul>", a, Item(name));
    } else {
      assert a + "" == a;
    }
  }

  lemma AddOneItem(listing: seq<string>, name: string)
    ensures Items(HtmlNames(listing + [name])) == Items(HtmlNames(listing)) + (if IsHtml(name) then Item(name) else "")
  {
    var h := HtmlNames(listing);
    HtmlNamesAppend(listing, [name]);
    assert [name][..0] == [];
    if IsHtml(name) {
      ItemsSnoc(h, name);
    } else {
      assert h + [] == h;
      assert Items(h) + "" == Items(h);
    }
  }

  /** Every `.html` name gets as many entries as it is listed, and no other
      name gets one. */
  lemma {:induction false} EntryCount(listing: seq<string>)
    ensures forall n :: multiset(HtmlNames(listing))[n] == if IsHtml(n) then multiset(listing)[n] else 0
  {
    if listing != [] {
      var init := listing[..|listing| - 1];
      var last := listing[|listing| - 1];
      EntryCount(init);
      assert listing == init + [last];
      assert multiset(listing) == multiset(init) + multiset{last};
      assert multiset(HtmlNames(listing)) == multiset(HtmlNames(init)) + multiset(if IsHtml(last) then [last] else []);
    }
  }

  /** Each entry links to `/NAME`, and its text is the stem: the stem with
      `.html` appended gives back NAME. */
  lemma ItemLinksToName(name: string)
    requires IsHtml(name)
    ensures exists stem :: (stem + ".html" == name
      && Item(name) == "<li><a href='/" + name + "'>" + stem + "</a></li>\n")
  {
    DropSuffixRoundTrip(name, ".html");
    var stem := DropLast(name, 5);
    assert stem + ".html" == name;
  }
}
