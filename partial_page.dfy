/** The first wiki lookup: for every friend title, the page it resolves to (after the wiki's
    own title normalisation), the page URL, and the image the page is best illustrated by. */
module PartialPages {
  import opened Base
  import opened Friends
  import opened Wiki

  /** An entry of the reply's `normalized` list: the title asked for and the title used. */
  datatype Normalized = Normalized(from: string, to: string)

  /** One record of the reply's `pages` map; `images` holds the titles of the page's images. */
  datatype PageJson = PageJson(
    title: Option<string>,
    images: Option<seq<string>>,
    fullurl: Option<string>,
    missing: Option<string>,
    invalid: Option<string>)

  /** A decoded reply. The records of the `pages` map come in an order nothing promises. */
  datatype WikiResponse = WikiResponse(normalized: Option<seq<Normalized>>, pages: seq<PageJson>)

  /** `PartialPage`: a resolved page still waiting for the URL of its image. */
  datatype PartialPage = PartialPage(title: string, aliases: seq<string>, url: string, imageTitle: Option<string>)

  // ---------------------------------------------------------------------------
  // The `titles` parameter

  function Titles(friends: seq<Friend>): (ts: seq<string>)
    ensures |ts| == |friends|
    ensures forall i :: 0 <= i < |friends| ==> ts[i] == friends[i].title
  {
    seq(|friends|, i requires 0 <= i < |friends| => friends[i].title)
  }

  /** The `titles` parameter: an ordinary page first, so that the wiki always answers with a
      map of pages, then every friend title, each followed by `|`. */
  function TitlesParam(friends: seq<Friend>): string
  {
    "Serval|" + JoinTerminated(Titles(friends), '|')
  }

  /** The wiki reads the parameter back as `Serval` followed by exactly the friend titles,
      as long as no title contains a `|`. */
  lemma TitlesParamSplits(friends: seq<Friend>)
    requires forall i :: 0 <= i < |friends| ==> '|' !in friends[i].title
    ensures SplitTerminated(TitlesParam(friends), '|') == ["Serval"] + Titles(friends)
  {
    var parts := ["Serval"] + Titles(friends);
    assert parts[1..] == Titles(friends);
    assert JoinTerminated(parts, '|') == TitlesParam(friends);
    SplitJoinTerminated(parts, '|');
  }

  /** `make_titles`. */
  method MakeTitles(friends: seq<Friend>) returns (s: string)
    ensures s == TitlesParam(friends)
  {
    s := "Serval|";
    for i := 0 to |friends|
      invariant s == "Serval|" + JoinTerminated(Titles(friends[..i]), '|')
    {
      assert Titles(friends[..i + 1]) == Titles(friends[..i]) + [friends[i].title];
      JoinTerminatedSnoc(Titles(friends[..i]), friends[i].title, '|');
      s := s + friends[i].title + "|";
    }
    assert friends[..|friends|] == friends;
  }

  // ---------------------------------------------------------------------------
  // Aliases

  /** The `from` of every normalisation entry that leads to `title`, in list order. */
  function AliasesIn(title: string, ns: seq<Normalized>): seq<string>
  {
    if ns == [] then []
    else (if ns[0].to == title then [ns[0].from] else []) + AliasesIn(title, ns[1..])
  }

  /** `get_aliases`. */
  function Aliases(title: string, normalized: Option<seq<Normalized>>): (r: seq<string>)
    ensures normalized.None? ==> r == []
  {
    if normalized.Some? then AliasesIn(title, normalized.value) else []
  }

  /** A title is an alias exactly when some normalisation entry leads from it to the page. */
  lemma {:induction false} AliasesInMembers(title: string, ns: seq<Normalized>)
    ensures |AliasesIn(title, ns)| <= |ns|
    ensures forall x :: x in AliasesIn(title, ns) <==>
                        exists i :: 0 <= i < |ns| && ns[i] == Normalized(x, title)
  {
    if ns != [] {
      AliasesInMembers(title, ns[1..]);
      forall x
        ensures x in AliasesIn(title, ns) <==> exists i :: 0 <= i < |ns| && ns[i] == Normalized(x, title)
      {
        if x in AliasesIn(title, ns[1..]) {
          var i :| 0 <= i < |ns[1..]| && ns[1..][i] == Normalized(x, title);
          assert ns[i + 1] == Normalized(x, title);
        }
        if exists i :: 0 <= i < |ns| && ns[i] == Normalized(x, title) {
          var i :| 0 <= i < |ns| && ns[i] == Normalized(x, title);
          if i > 0 {
            assert ns[1..][i - 1] == Normalized(x, title);
          }
        }
      }
    }
  }

  /** Aliases follow the order of the normalisation list: those of an earlier part of it
      come first. */
  lemma {:induction false} AliasesInAppend(title: string, a: seq<Normalized>, b: seq<Normalized>)
    ensures AliasesIn(title, a + b) == AliasesIn(title, a) + AliasesIn(title, b)
  {
    if a == [] {
      assert a + b == b;
    } else {
      assert (a + b)[0] == a[0];
      assert (a + b)[1..] == a[1..] + b;
      AliasesInAppend(title, a[1..], b);
    }
  }

  // ---------------------------------------------------------------------------
  // Choosing the image of a page

  /** The extension filter of `select_image`, on the lower-cased title. */
  predicate IsImageFile(name: string) {
    var lc := ToLower(name);
    IsSuffix("jpg", lc) || IsSuffix("png", lc) || IsSuffix("jpeg", lc)
    || IsSuffix("gif", lc) || IsSuffix("bmp", lc) || IsSuffix("tiff", lc)
  }

  predicate IsOriginal(name: string) {
    Contains(ToLower(name), "original")
  }

  /** The image titles that pass the extension filter, in order. */
  function Candidates(images: seq<string>): seq<string>
  {
    Filter(images, IsImageFile)
  }

  /** The candidates are exactly the pictures among the titles. */
  lemma CandidatesMembers(images: seq<string>)
    ensures |Candidates(images)| <= |images|
    ensures forall x :: x in Candidates(images) <==> x in images && IsImageFile(x)
  {
    FilterMembers(images, IsImageFile);
  }

  /** Position of the first title containing "original", or `|cs|` when there is none. */
  function FirstOriginal(cs: seq<string>): (k: nat)
    ensures k <= |cs|
    ensures forall i :: 0 <= i < k ==> !IsOriginal(cs[i])
    ensures k < |cs| ==> IsOriginal(cs[k])
  {
    if cs == [] || IsOriginal(cs[0]) then 0 else 1 + FirstOriginal(cs[1..])
  }

  lemma {:induction false} FirstOriginalAppend(a: seq<string>, b: seq<string>)
    requires FirstOriginal(a) == |a|
    ensures FirstOriginal(a + b) == |a| + FirstOriginal(b)
  {
    if a == [] {
      assert a + b == b;
    } else {
      assert (a + b)[0] == a[0] && !IsOriginal(a[0]);
      assert (a + b)[1..] == a[1..] + b;
      FirstOriginalAppend(a[1..], b);
    }
  }

  /** The choice among the pictures `cs`: the first whose title contains "original", or
      failing that the first. */
  function Pick(cs: seq<string>): Option<string>
  {
    var k := FirstOriginal(cs);
    if k < |cs| then Some(cs[k]) else if cs == [] then None else Some(cs[0])
  }

  /** What `select_image` settles on: nothing when the page lists no images or none of them
      is a picture; otherwise the first picture whose title contains "original", or failing
      that the first picture. The title of the page plays no part. */
  function ChooseImage(images: Option<seq<string>>): (r: Option<string>)
    ensures r.None? <==> images.None? || forall x :: x in images.value ==> !IsImageFile(x)
    ensures r.Some? ==> r.value in images.value && IsImageFile(r.value)
    ensures r.Some? && !IsOriginal(r.value) ==>
              forall x :: x in images.value && IsImageFile(x) ==> !IsOriginal(x)
  {
    if images.None? then None
    else
      var cs := Candidates(images.value);
      CandidatesMembers(images.value);
      var k := FirstOriginal(cs);
      assert forall x :: x in cs ==> exists i :: 0 <= i < |cs| && cs[i] == x;
      if k < |cs| then
        assert cs[k] in cs;
        Pick(cs)
      else if cs == [] then None
      else
        assert cs[0] in cs;
        Pick(cs)
  }

  /** Which picture is chosen, told on the page's own list of images: an original is the
      first original picture file in the list, and any other choice is the first picture
      file in the list. */
  lemma ChooseImageFirst(images: seq<string>)
    ensures var r := ChooseImage(Some(images));
            r.Some? && IsOriginal(r.value) ==>
              exists i :: 0 <= i < |images| && images[i] == r.value &&
                          forall k :: 0 <= k < i ==> !(IsImageFile(images[k]) && IsOriginal(images[k]))
    ensures var r := ChooseImage(Some(images));
            r.Some? && !IsOriginal(r.value) ==>
              exists i :: 0 <= i < |images| && images[i] == r.value &&
                          forall k :: 0 <= k < i ==> !IsImageFile(images[k])
  {
    var cs := Candidates(images);
    var k := FirstOriginal(cs);
    if k < |cs| {
      FilterAt(images, IsImageFile, k);
      var i :| 0 <= i < |images| && images[i] == cs[k] && Filter(images[..i], IsImageFile) == cs[..k];
      forall j | 0 <= j < i && IsImageFile(images[j])
        ensures !IsOriginal(images[j])
      {
        FilterMembers(images[..i], IsImageFile);
        assert images[j] == images[..i][j];
        assert images[j] in cs[..k];
      }
    } else if cs != [] {
      FilterAt(images, IsImageFile, 0);
      var i :| 0 <= i < |images| && images[i] == cs[0] && Filter(images[..i], IsImageFile) == cs[..0];
      forall j | 0 <= j < i
        ensures !IsImageFile(images[j])
      {
        FilterMembers(images[..i], IsImageFile);
        assert images[j] == images[..i][j];
      }
    }
  }

  /** The selection when the picture at `i` is the first one containing "original". */
  lemma ChooseOriginalAt(images: seq<string>, i: nat)
    requires i < |images| && IsImageFile(images[i]) && IsOriginal(images[i])
    requires FirstOriginal(Candidates(images[..i])) == |Candidates(images[..i])|
    ensures Pick(Candidates(images)) == Some(images[i])
  {
    var before := Candidates(images[..i]);
    var rest := [images[i]] + Candidates(images[i + 1..]);
    assert Candidates(images) == before + rest by {
      FilterStep(images, i, IsImageFile);
      FilterAppend(images[..i + 1], images[i + 1..], IsImageFile);
      assert images[..i + 1] + images[i + 1..] == images;
    }
    assert FirstOriginal(rest) == 0;
    FirstOriginalAppend(before, rest);
  }

  /** The selection after a title that is not an original picture. */
  lemma NoOriginalStep(images: seq<string>, i: nat)
    requires i < |images| && !(IsImageFile(images[i]) && IsOriginal(images[i]))
    requires FirstOriginal(Candidates(images[..i])) == |Candidates(images[..i])|
    ensures FirstOriginal(Candidates(images[..i + 1])) == |Candidates(images[..i + 1])|
    ensures Candidates(images[..i + 1]) ==
            Candidates(images[..i]) + (if IsImageFile(images[i]) then [images[i]] else [])
  {
    FilterStep(images, i, IsImageFile);
    var extra := if IsImageFile(images[i]) then [images[i]] else [];
    FirstOriginalAppend(Candidates(images[..i]), extra);
    if extra != [] {
      assert extra[1..] == [];
    }
  }

  /** The selection once every title has been looked at without meeting an original. */
  lemma ChooseWithoutOriginal(images: seq<string>)
    requires FirstOriginal(Candidates(images[..|images|])) == |Candidates(images[..|images|])|
    ensures Pick(Candidates(images)) ==
            if Candidates(images[..|images|]) == [] then None else Some(Candidates(images[..|images|])[0])
  {
    assert images[..|images|] == images;
  }

  /** `select_image`. Its last test, which would take a picture named after the page, asks
      for nothing to have been selected yet, and by then the first picture always has been:
      that branch never changes the selection, so the result does not depend on `title`. */
  method SelectImage(title: string, images: Option<seq<string>>) returns (selected: Option<string>)
    ensures selected == ChooseImage(images)
  {
    if images.None? {
      return None;
    }
    var imgs := images.value;
    selected := None;
    var i := 0;
    while i < |imgs|
      invariant 0 <= i <= |imgs|
      invariant FirstOriginal(Candidates(imgs[..i])) == |Candidates(imgs[..i])|
      invariant selected == if Candidates(imgs[..i]) == [] then None else Some(Candidates(imgs[..i])[0])
    {
      var image := imgs[i];
      if IsImageFile(image) {
        if selected.None? {
          selected := Some(image);
        }
        var lc := ToLower(image);
        if Contains(lc, "original") {
          selected := Some(image);
          ChooseOriginalAt(imgs, i);
          break;
        }
        if Contains(lc, ToLower(title)) && selected.None? {
          selected := Some(image);
        }
      }
      NoOriginalStep(imgs, i);
      i := i + 1;
    }
    if i == |imgs| {
      ChooseWithoutOriginal(imgs);
    }
  }

  // ---------------------------------------------------------------------------
  // Records to partial pages

  /** `parse_page`: a record marked invalid or missing, or lacking its title or URL, gives
      nothing; otherwise the page with its aliases and chosen image. */
  function PartialOf(page: PageJson, normalized: Option<seq<Normalized>>): (r: Option<PartialPage>)
    ensures r.None? <==>
            page.invalid.Some? || page.missing.Some? || page.title.None? || page.fullurl.None?
    ensures r.Some? ==> r.value.title == page.title.value && r.value.url == page.fullurl.value
    ensures r.Some? ==> r.value.aliases == Aliases(page.title.value, normalized)
    ensures r.Some? ==> r.value.imageTitle == ChooseImage(page.images)
  {
    if page.invalid.Some? || page.missing.Some? then None
    else if page.title.None? || page.fullurl.None? then None
    else
      var title := page.title.value;
      Some(PartialPage(title, Aliases(title, normalized), page.fullurl.value, ChooseImage(page.images)))
  }

  /** `parse_page`. */
  method ParsePage(page: PageJson, normalized: Option<seq<Normalized>>) returns (r: Option<PartialPage>)
    ensures r == PartialOf(page, normalized)
  {
    if page.invalid.Some? || page.missing.Some? {
      return None;
    }
    if page.title.None? || page.fullurl.None? {
      return None;
    }
    var title := page.title.value;
    var url := page.fullurl.value;
    var aliases := Aliases(title, normalized);
    var imageTitle := SelectImage(title, page.images);
    r := Some(PartialPage(title, aliases, url, imageTitle));
  }

  /** The partial pages of the records, in record order. */
  function ParsedPages(pages: seq<PageJson>, normalized: Option<seq<Normalized>>): seq<PartialPage>
  {
    Collect(pages, PartialFrom(normalized))
  }

  /** `parse_page` with the reply's normalisations fixed. */
  function PartialFrom(normalized: Option<seq<Normalized>>): PageJson -> Option<PartialPage>
  {
    page => PartialOf(page, normalized)
  }

  /** Every partial page comes from a record of the reply, every usable record gives one, and
      there are never more pages than records. */
  lemma ParsedPagesMembers(pages: seq<PageJson>, normalized: Option<seq<Normalized>>)
    ensures |ParsedPages(pages, normalized)| <= |pages|
    ensures forall p :: p in ParsedPages(pages, normalized) <==>
                        exists i :: 0 <= i < |pages| && PartialOf(pages[i], normalized) == Some(p)
  {
    CollectMembers(pages, PartialFrom(normalized));
  }

  /** `parse_response`: the pages of the records that parse, in the order they are drained. */
  method ParseResponse(res: WikiResponse) returns (partials: seq<PartialPage>)
    ensures partials == ParsedPages(res.pages, res.normalized)
  {
    partials := [];
    var pages := res.pages;
    for i := 0 to |pages|
      invariant partials == ParsedPages(pages[..i], res.normalized)
    {
      CollectStep(pages, i, PartialFrom(res.normalized));
      var parsed := ParsePage(pages[i], res.normalized);
      if parsed.Some? {
        partials := partials + [parsed.value];
      }
    }
    assert pages[..|pages|] == pages;
  }

  // ---------------------------------------------------------------------------
  // Requests

  /** `make_request` on one window, given what the wiki answers to each `titles` value. */
  function Request(friends: seq<Friend>, wiki: string -> Reply<WikiResponse>): Result<seq<PartialPage>, WikiError>
  {
    match Outcome(wiki(TitlesParam(friends)))
    case Err(e) => Err(e)
    case Ok(res) => Ok(ParsedPages(res.pages, res.normalized))
  }

  function RequestOf(wiki: string -> Reply<WikiResponse>): seq<Friend> -> Result<seq<PartialPage>, WikiError>
  {
    friends => Request(friends, wiki)
  }

  /** `make_request`; the source asserts that the window fits. */
  method MakeRequest(friends: seq<Friend>, wiki: string -> Reply<WikiResponse>) returns (r: Result<seq<PartialPage>, WikiError>)
    requires |friends| <= MaxTitles
    ensures r == Request(friends, wiki)
  {
    var titles := MakeTitles(friends);
    var reply := wiki(titles);
    if reply.TransportFailure? {
      return Err(RequestError);
    }
    if reply.status != StatusOk {
      return Err(StatusError(reply.status));
    }
    if reply.body.None? {
      return Err(RequestError);
    }
    var partials := ParseResponse(reply.body.value);
    r := Ok(partials);
  }

  /** `PartialPage::get`: the windowing loop, every window within the size `make_request`
      asserts. */
  method Get(friends: seq<Friend>, wiki: string -> Reply<WikiResponse>) returns (r: Result<seq<PartialPage>, WikiError>)
    ensures r == Batched(Windows(friends), RequestOf(wiki))
  {
    var partials: seq<PartialPage> := [];
    var index := 0;
    assert friends[0..] == friends;
    while |friends| - index > MaxTitles
      invariant 0 <= index <= |friends|
      invariant Batched(Windows(friends), RequestOf(wiki)) ==
                Then(partials, Batched(Windows(friends[index..]), RequestOf(wiki)))
    {
      BatchedFrom(friends, index, RequestOf(wiki));
      var got := MakeRequest(friends[index..index + MaxTitles], wiki);
      if got.Err? {
        return Err(got.error);
      }
      ThenThen(partials, got.value, Batched(Windows(friends[index + MaxTitles..]), RequestOf(wiki)));
      partials := partials + got.value;
      index := index + MaxTitles;
    }
    BatchedFrom(friends, index, RequestOf(wiki));
    var got := MakeRequest(friends[index..], wiki);
    if got.Err? {
      return Err(got.error);
    }
    r := Ok(partials + got.value);
  }
}
