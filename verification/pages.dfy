/** The two HTML pages the server sends (index.js lines 27-36 and 55-62).
    Both are plain string concatenation; nothing is escaped. */
module Pages {
  import opened Options
  import opened Text
  import opened Config

  // ---------------------------------------------------------------- landing

  /** Shown when a custom endpoint is configured (line 30). */
  const Banner: string := "<h3 style=\"color:red\">" + "WireMock stubbing ENABLED</h3>"

  /** The template text before and after the banner slot, whitespace included
      (lines 28-35), one constant per source line. Long lines are written
      as a few shorter literals. */
  const TitleLine: string := "\n        <h2>Upload a file" + " to Azure Blob Storage</h2>" + "\n        "
  const FormOpen: string := "\n        <form action=\"/upload\"" + " method=\"post\"" + " enctype=\"multipart/form-data\">"
  const FileInput: string := "\n            <input" + " type=\"file\" name=\"file\" />"
  const SubmitButton: string := "\n            <button" + " type=\"submit\">Upload</button>"
  const FormClose: string := "\n        </form>\n    "
  const LandingForm: string := FormOpen + FileInput + SubmitButton + FormClose

  /** The body of `GET /`. */
  function LandingPage(customEndpoint: Option<string>): string
  {
    TitleLine + (if Truthy(customEndpoint) then Banner else []) + LandingForm
  }

  /** The banner appears if and only if the custom endpoint is truthy. */
  lemma BannerIffCustomEndpoint(customEndpoint: Option<string>)
    ensures Contains(LandingPage(customEndpoint), Banner) <==> Truthy(customEndpoint)
  {
    if Truthy(customEndpoint) {
      ContainsMiddle(TitleLine, Banner, LandingForm);
    } else {
      PlainPageLacksBanner();
    }
  }

  // The banner is the only part of the landing page with a `W`, which gives
  // a cheap proof that the plain page does not contain it: find the banner's
  // `W` (BannerHasW), and show each literal of the plain page lacks one (the
  // *LacksW lemmas). Checking literal text against a whole substring is far
  // more costly for the solver.

  lemma PlainPageLacksBanner()
    ensures !Contains(TitleLine + [] + LandingForm, Banner)
  {
    // The 'W' of "WireMock" occurs nowhere else on the page.
    PlainLandingLacksW();
    BannerHasW();
    AbsentCharExcludes(TitleLine + [] + LandingForm, Banner, 22);
  }

  lemma BannerHasW()
    ensures |Banner| > 22 && Banner[22] == 'W'
  {
  }

  /** The landing text outside the banner has no `W`. The solver checks
      literals character by character, so each line gets its own lemma. */
  lemma PlainLandingLacksW()
    ensures 'W' !in TitleLine + [] + LandingForm
  {
    TitleLineLacksW();
    FormOpenLacksW();
    FormRestLacksW();
  }

  lemma TitleLineLacksW()
    ensures 'W' !in TitleLine
  {
    assert 'W' !in "\n        <h2>Upload a file";
    assert 'W' !in " to Azure Blob Storage</h2>";
  }

  lemma FormOpenLacksW()
    ensures 'W' !in FormOpen
  {
    assert 'W' !in "\n        <form action=\"/upload\"";
    assert 'W' !in " enctype=\"multipart/form-data\">";
  }

  lemma FormRestLacksW()
    ensures 'W' !in FileInput + SubmitButton + FormClose
  {
    assert 'W' !in " type=\"file\" name=\"file\" />";
    assert 'W' !in " type=\"submit\">Upload</button>";
  }

  /** Apart from the banner the page is always the same: it depends on the
      endpoint only through its truthiness, and the banner page is the plain
      page with the banner inserted at one place. */
  lemma LandingPagesDifferOnlyByBanner(e1: Option<string>, e2: Option<string>)
    ensures Truthy(e1) == Truthy(e2) ==> LandingPage(e1) == LandingPage(e2)
    ensures Truthy(e1) && !Truthy(e2) ==>
      exists i :: 0 <= i <= |LandingPage(e2)| && LandingPage(e1) == LandingPage(e2)[..i] + Banner + LandingPage(e2)[i..]
  {
    if Truthy(e1) && !Truthy(e2) {
      var plain := LandingPage(e2);
      var i := |TitleLine|;
      assert plain[..i] == TitleLine;
      assert plain[i..] == LandingForm;
    }
  }

  // ----------------------------------------------------------------- result

  const ResultIntro: string := "<p>File uploaded to Azure Blob Storage: "
  const ResultIntroEnd: string := "</p>"
  const ListHeading: string := "<h3>List of files in container:</h3>"
  const ListOpen: string := "<ul>"
  const ItemOpen: string := "<li>"
  const ItemClose: string := "</li>"
  const ListClose: string := "</ul>"
  const NewUploadButton: string := "<button onclick=\"window.location.href='/'\">New Upload</button>"

  /** The fixed text between the blob name and the items, and after the items. */
  const ResultMiddle: string := ResultIntroEnd + ListHeading + ListOpen
  const ResultEnd: string := ListClose + NewUploadButton

  /** One list item, the name embedded as is (line 59). */
  function Item(name: string): string
  {
    ItemOpen + name + ItemClose
  }

  /** The items appended one per name, in order, as `forEach` with `+=`
      does (lines 58-60). */
  function ListItems(names: seq<string>): string
  {
    if names == [] then [] else ListItems(names[..|names| - 1]) + Item(names[|names| - 1])
  }

  /** The body of a successful `POST /upload` (lines 55-62). */
  function ResultPage(blobName: string, names: seq<string>): string
  {
    ResultIntro + blobName + ResultIntroEnd + ListHeading + ListOpen + ListItems(names) + ListClose + NewUploadButton
  }

  /** The accumulated items read front to back: the first name's item, then
      the rest. */
  lemma {:induction false} ListItemsCons(name: string, rest: seq<string>)
    ensures ListItems([name] + rest) == Item(name) + ListItems(rest)
    decreases |rest|
  {
    if rest != [] {
      var init := rest[..|rest| - 1];
      assert ([name] + rest)[..|rest|] == [name] + init;
      ListItemsCons(name, init);
    }
  }

  // ------------------------------------------------- reading the page back

  /** `true` when no markup character `<` occurs in any of the names. */
  predicate PlainNames(names: seq<string>)
  {
    forall i :: 0 <= i < |names| ==> '<' !in names[i]
  }

  /** Reads list items off the front of `s` for as long as they are well
      formed; returns the names read and what is left. A name ends at the
      first `<`. */
  function ParseItems(s: string): (seq<string>, string)
    decreases |s|
  {
    if ItemOpen <= s then
      var e := RunEnd(s, |ItemOpen|, '<');
      if ItemClose <= s[e..] then
        var (rest, tail) := ParseItems(s[e + |ItemClose|..]);
        ([s[|ItemOpen|..e]] + rest, tail)
      else ([], s)
    else ([], s)
  }

  /** Recovers the blob name and the listed names from a result page, or
      `None` when the text is not one. */
  function ParseResultPage(page: string): Option<(string, seq<string>)>
  {
    if ResultIntro <= page then
      var e := RunEnd(page, |ResultIntro|, '<');
      var after := page[e..];
      if ResultMiddle <= after then
        var (names, tail) := ParseItems(after[|ResultMiddle|..]);
        if tail == ResultEnd then Some((page[|ResultIntro|..e], names)) else None
      else None
    else None
  }

  /** Items of names without `<` are read back exactly, and reading stops at
      the first thing that is not an item. */
  lemma {:induction false} ParseItemsRoundTrip(names: seq<string>, tail: string)
    requires PlainNames(names)
    requires !(ItemOpen <= tail)
    ensures ParseItems(ListItems(names) + tail) == (names, tail)
    decreases |names|
  {
    if names == [] {
      assert ListItems(names) + tail == tail;
    } else {
      var name, rest := names[0], names[1..];
      assert names == [name] + rest;
      assert PlainNames(rest) by {
        forall i | 0 <= i < |rest|
          ensures '<' !in rest[i]
        {
          assert rest[i] == names[i + 1];
        }
      }
      ListItemsCons(name, rest);
      var after := ListItems(rest) + tail;
      ParseOneItem(name, after);
      Associate(Item(name), ListItems(rest), tail);
      ParseItemsRoundTrip(rest, tail);
    }
  }

  /** One item in front of `after` is read off whole, leaving `after`. */
  lemma ParseOneItem(name: string, after: string)
    requires '<' !in name
    ensures ParseItems(Item(name) + after) == ([name] + ParseItems(after).0, ParseItems(after).1)
  {
    var s := Item(name) + after;
    var rest := ItemClose + after;
    assert s == ItemOpen + name + rest;
    assert rest[0] == '<';
    PlainRunEnd(ItemOpen, name, rest);
    var e := |ItemOpen| + |name|;
    SplitAt(ItemOpen, name + rest);
    SplitAt(ItemOpen + name, rest);
    SplitAt(ItemClose, after);
    assert s[|ItemOpen|..e] == name;
    assert s[e + |ItemClose|..] == after;
  }

  /** A `<`-free piece followed by `<` (or nothing) is one whole run. */
  lemma PlainRunEnd(pre: string, x: string, post: string)
    requires '<' !in x
    requires post == [] || post[0] == '<'
    ensures RunEnd(pre + x + post, |pre|, '<') == |pre| + |x|
  {
    var s := pre + x + post;
    assert forall k :: |pre| <= k < |pre| + |x| ==> s[k] == x[k - |pre|];
    RunEndUnique(s, |pre|, '<', |pre| + |x|);
  }

  /** The result page can be read back into the uploaded name and the
      listing, in order, when none of them contains `<`. */
  lemma ResultPageRoundTrip(blobName: string, names: seq<string>)
    requires '<' !in blobName
    requires PlainNames(names)
    ensures ParseResultPage(ResultPage(blobName, names)) == Some((blobName, names))
  {
    var items := ListItems(names);
    Regroup(ResultIntro, blobName, ResultIntroEnd, ListHeading, ListOpen, items, ListClose, NewUploadButton);
    assert !(ItemOpen <= ResultEnd) by {
      assert ResultEnd[1] != ItemOpen[1];
    }
    ParseItemsRoundTrip(names, ResultEnd);
    ParsePageParts(ResultIntro + blobName + (ResultMiddle + (items + ResultEnd)), blobName, items, names);
  }

  /** Whatever the names contain, the result page starts with the intro and
      the uploaded name, verbatim, and holds the accumulated items. */
  lemma ResultPageEmbeds(blobName: string, names: seq<string>)
    ensures ResultIntro + blobName <= ResultPage(blobName, names)
    ensures Contains(ResultPage(blobName, names), ListItems(names))
  {
    var items := ListItems(names);
    Regroup(ResultIntro, blobName, ResultIntroEnd, ListHeading, ListOpen, items, ListClose, NewUploadButton);
    PrefixAndMiddle(ResultIntro + blobName, ResultMiddle, items, ResultEnd);
  }

  /** Reading a page assembled from its parts. */
  lemma ParsePageParts(page: string, blobName: string, items: string, names: seq<string>)
    requires page == ResultIntro + blobName + (ResultMiddle + (items + ResultEnd))
    requires '<' !in blobName
    requires ParseItems(items + ResultEnd) == (names, ResultEnd)
    ensures ParseResultPage(page) == Some((blobName, names))
  {
    var head := ResultIntro + blobName;
    var rest := ResultMiddle + (items + ResultEnd);
    assert rest[0] == '<' by {
      assert ResultMiddle[0] == '<';
    }
    var e := |head|;
    PlainRunEnd(ResultIntro, blobName, rest);
    assert RunEnd(page, |ResultIntro|, '<') == e;
    Associate(ResultIntro, blobName, rest);
    SplitAt(ResultIntro, blobName + rest);
    assert ResultIntro <= page;
    SplitAt(head, rest);
    assert page[e..] == rest;
    SliceInFirst(head, rest, |ResultIntro|, e);
    SplitAt(ResultIntro, blobName);
    assert page[|ResultIntro|..e] == blobName;
    SplitAt(ResultMiddle, items + ResultEnd);
    assert ResultMiddle <= rest;
    assert rest[|ResultMiddle|..] == items + ResultEnd;
  }

  /** The result page regrouped as intro, name, and everything after. The
      pieces are parameters rather than the page's constants so the solver
      reassociates eight strings without unfolding any literal. */
  lemma Regroup(a: string, b: string, c: string, d: string, e: string, f: string, g: string, h: string)
    ensures a + b + c + d + e + f + g + h == a + b + ((c + d + e) + (f + (g + h)))
  {
  }

  /** Distinct plain inputs give distinct pages. */
  lemma ResultPageInjective(b1: string, n1: seq<string>, b2: string, n2: seq<string>)
    requires '<' !in b1 && '<' !in b2
    requires PlainNames(n1) && PlainNames(n2)
    requires ResultPage(b1, n1) == ResultPage(b2, n2)
    ensures b1 == b2 && n1 == n2
  {
    ResultPageRoundTrip(b1, n1);
    ResultPageRoundTrip(b2, n2);
  }

  /** Nothing is escaped: a name carrying `</li><li>` renders exactly like
      two separate names, so the listing cannot be recovered from the page. */
  lemma UnescapedNamesCollide(blobName: string, x: string, y: string)
    ensures ResultPage(blobName, [x + ItemClose + ItemOpen + y]) == ResultPage(blobName, [x, y])
  {
    assert [x, y][..1] == [x];
    assert [x][..0] == [];
    assert ListItems([x, y]) == ListItems([x]) + Item(y);
  }

}
