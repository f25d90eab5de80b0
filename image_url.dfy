/** The second wiki lookup: the file URL of every image chosen by the first lookup. */
module ImageUrls {
  import opened Base
  import opened Wiki
  import opened PartialPages

  /** `ImageUrl`: an image title and the URL of its file. */
  datatype ImageUrl = ImageUrl(title: string, url: string)

  /** One record of the reply's `pages` map; `imageinfo` holds the URLs of the file's
      revisions, the current one first. */
  datatype ImageJson = ImageJson(
    title: Option<string>,
    imageinfo: Option<seq<string>>,
    missing: Option<string>,
    invalid: Option<string>)

  /** A decoded reply; the records come in an order nothing promises. */
  datatype ImageResponse = ImageResponse(pages: seq<ImageJson>)

  // ---------------------------------------------------------------------------
  // The `titles` parameter

  /** The chosen image titles of the partial pages, in order; pages without one are skipped. */
  function ImageTitles(partials: seq<PartialPage>): seq<string>
  {
    if partials == [] then []
    else
      var n := |partials| - 1;
      ImageTitles(partials[..n]) + (if partials[n].imageTitle.Some? then [partials[n].imageTitle.value] else [])
  }

  /** Every image title asked for is the chosen image of some page, and every chosen image is
      asked for. */
  lemma {:induction false} ImageTitlesMembers(partials: seq<PartialPage>)
    ensures |ImageTitles(partials)| <= |partials|
    ensures forall t :: t in ImageTitles(partials) <==>
                        exists i :: 0 <= i < |partials| && partials[i].imageTitle == Some(t)
  {
    if partials != [] {
      var n := |partials| - 1;
      ImageTitlesMembers(partials[..n]);
      forall t
        ensures t in ImageTitles(partials) <==>
                exists i :: 0 <= i < |partials| && partials[i].imageTitle == Some(t)
      {
        if t in ImageTitles(partials[..n]) {
          var i :| 0 <= i < n && partials[..n][i].imageTitle == Some(t);
          assert partials[i] == partials[..n][i];
        }
        if exists i :: 0 <= i < |partials| && partials[i].imageTitle == Some(t) {
          var i :| 0 <= i < |partials| && partials[i].imageTitle == Some(t);
          if i < n {
            assert partials[..n][i] == partials[i];
          }
        }
      }
    }
  }

  /** The `titles` parameter: a leading `|` so that the query is never empty (the wiki would
      then leave out its `query` element), then each chosen image title followed by `|`. */
  function TitlesParam(partials: seq<PartialPage>): string
  {
    "|" + JoinTerminated(ImageTitles(partials), '|')
  }

  /** The wiki reads the parameter back as an empty title followed by exactly the chosen
      image titles, as long as none contains a `|`. */
  lemma TitlesParamSplits(partials: seq<PartialPage>)
    requires forall t :: t in ImageTitles(partials) ==> '|' !in t
    ensures SplitTerminated(TitlesParam(partials), '|') == [""] + ImageTitles(partials)
  {
    var parts := [""] + ImageTitles(partials);
    assert parts[1..] == ImageTitles(partials);
    assert JoinTerminated(parts, '|') == TitlesParam(partials);
    SplitJoinTerminated(parts, '|');
  }

  /** `make_titles`. */
  method MakeTitles(partials: seq<PartialPage>) returns (s: string)
    ensures s == TitlesParam(partials)
  {
    s := "|";
    for i := 0 to |partials|
      invariant s == "|" + JoinTerminated(ImageTitles(partials[..i]), '|')
    {
      assert partials[..i + 1][..i] == partials[..i];
      assert ImageTitles(partials[..i + 1]) == ImageTitles(partials[..i]) +
        (if partials[i].imageTitle.Some? then [partials[i].imageTitle.value] else []);
      if partials[i].imageTitle.Some? {
        var ititle := partials[i].imageTitle.value;
        JoinTerminatedSnoc(ImageTitles(partials[..i]), ititle, '|');
        s := s + ititle + "|";
      } else {
        assert ImageTitles(partials[..i + 1]) == ImageTitles(partials[..i]);
      }
    }
    assert partials[..|partials|] == partials;
  }

  // ---------------------------------------------------------------------------
  // Records to image URLs

  /** A record that is neither missing nor invalid has a title and an `imageinfo` list; the
      source stops with a panic on a reply that breaks this. */
  predicate WellFormed(image: ImageJson) {
    image.missing.None? && image.invalid.None? ==> image.title.Some? && image.imageinfo.Some?
  }

  predicate ReplyWellFormed(reply: Reply<ImageResponse>) {
    reply.Replied? && reply.body.Some? ==>
      forall k :: 0 <= k < |reply.body.value.pages| ==> WellFormed(reply.body.value.pages[k])
  }

  /** The image URL a record gives: the first revision's URL of a present file that has any
      revisions. */
  function UrlOf(image: ImageJson): (r: Option<ImageUrl>)
    requires WellFormed(image)
    ensures r.Some? <==> image.missing.None? && image.invalid.None? && image.imageinfo.value != []
    ensures r.Some? ==> r.value == ImageUrl(image.title.value, image.imageinfo.value[0])
  {
    if image.missing.None? && image.invalid.None? && |image.imageinfo.value| != 0 then
      Some(ImageUrl(image.title.value, image.imageinfo.value[0]))
    else
      None
  }

  /** The image URLs of the records, in record order. */
  function UrlsOf(images: seq<ImageJson>): seq<ImageUrl>
  {
    Collect(images, UrlFrom)
  }

  /** `UrlOf` on every record; a record that is not well formed gives nothing. */
  function UrlFrom(image: ImageJson): Option<ImageUrl>
  {
    if WellFormed(image) then UrlOf(image) else None
  }

  /** Never more URLs than records, and each URL comes from a record that gives it. */
  lemma UrlsOfMembers(images: seq<ImageJson>)
    requires forall k :: 0 <= k < |images| ==> WellFormed(images[k])
    ensures |UrlsOf(images)| <= |images|
    ensures forall u :: u in UrlsOf(images) <==> exists i :: 0 <= i < |images| && UrlOf(images[i]) == Some(u)
  {
    CollectMembers(images, UrlFrom);
    assert forall i :: 0 <= i < |images| ==> UrlFrom(images[i]) == UrlOf(images[i]);
  }

  /** `parse_response`; it never fails on a well-formed reply. */
  method ParseResponse(res: ImageResponse) returns (r: Result<seq<ImageUrl>, WikiError>)
    requires forall k :: 0 <= k < |res.pages| ==> WellFormed(res.pages[k])
    ensures r == Ok(UrlsOf(res.pages))
  {
    var images: seq<ImageUrl> := [];
    var pages := res.pages;
    for i := 0 to |pages|
      invariant images == UrlsOf(pages[..i])
    {
      CollectStep(pages, i, UrlFrom);
      var image := pages[i];
      if image.missing.None? && image.invalid.None? {
        var title := image.title.value;
        var imageinfo := image.imageinfo.value;
        if |imageinfo| != 0 {
          images := images + [ImageUrl(title, imageinfo[0])];
        }
      }
    }
    assert pages[..|pages|] == pages;
    r := Ok(images);
  }

  // ---------------------------------------------------------------------------
  // Requests

  /** `make_request` on one window, given what the wiki answers to each `titles` value. */
  function Request(partials: seq<PartialPage>, wiki: string -> Reply<ImageResponse>): Result<seq<ImageUrl>, WikiError>
    requires ReplyWellFormed(wiki(TitlesParam(partials)))
  {
    match Outcome(wiki(TitlesParam(partials)))
    case Err(e) => Err(e)
    case Ok(res) => Ok(UrlsOf(res.pages))
  }

  /** `Request` for a wiki whose replies are all well formed. The source would panic on any
      other; for one it is `Err(RequestError)`, which the methods below never return. */
  function RequestOf(wiki: string -> Reply<ImageResponse>): seq<PartialPage> -> Result<seq<ImageUrl>, WikiError>
  {
    partials =>
      if ReplyWellFormed(wiki(TitlesParam(partials))) then Request(partials, wiki) else Err(RequestError)
  }

  /** `make_request`; the source asserts that the window fits. */
  method MakeRequest(partials: seq<PartialPage>, wiki: string -> Reply<ImageResponse>) returns (r: Result<seq<ImageUrl>, WikiError>)
    requires |partials| <= MaxTitles
    requires ReplyWellFormed(wiki(TitlesParam(partials)))
    ensures r == Request(partials, wiki)
  {
    var titles := MakeTitles(partials);
    var reply := wiki(titles);
    if reply.TransportFailure? {
      return Err(RequestError);
    }
    if reply.status != StatusOk {
      return Err(StatusError(reply.status));
    }
    if reply.body.None? {
      return Err(RequestError);
    }
    r := ParseResponse(reply.body.value);
  }

  /** `ImageUrl::get`: the same windowing loop as `PartialPage::get`. */
  method Get(partials: seq<PartialPage>, wiki: string -> Reply<ImageResponse>) returns (r: Result<seq<ImageUrl>, WikiError>)
    requires forall titles :: ReplyWellFormed(wiki(titles))
    ensures r == Batched(Windows(partials), RequestOf(wiki))
  {
    var images: seq<ImageUrl> := [];
    var index := 0;
    assert partials[0..] == partials;
    while |partials| - index > MaxTitles
      invariant 0 <= index <= |partials|
      invariant Batched(Windows(partials), RequestOf(wiki)) ==
                Then(images, Batched(Windows(partials[index..]), RequestOf(wiki)))
    {
      BatchedFrom(partials, index, RequestOf(wiki));
      var got := MakeRequest(partials[index..index + MaxTitles], wiki);
      if got.Err? {
        return Err(got.error);
      }
      ThenThen(images, got.value, Batched(Windows(partials[index + MaxTitles..]), RequestOf(wiki)));
      images := images + got.value;
      index := index + MaxTitles;
    }
    BatchedFrom(partials, index, RequestOf(wiki));
    var got := MakeRequest(partials[index..], wiki);
    if got.Err? {
      return Err(got.error);
    }
    r := Ok(images + got.value);
  }
}
