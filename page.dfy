/** The linker: partial pages, their image URLs and the friends that asked for them become
    finished wiki pages. */
module Pages {
  import opened Base
  import opened Friends
  import opened PartialPages
  import opened ImageUrls

  /** `Page`: a wiki page with the ids of every friend whose title led to it. */
  datatype Page = Page(friends: seq<nat>, title: string, url: string, image: Option<string>)

  // ---------------------------------------------------------------------------
  // find_image

  /** Position of the first image URL with title `t`, or `|images|` when there is none. */
  function FirstTitled(images: seq<ImageUrl>, t: string): (k: nat)
    ensures k <= |images|
    ensures forall i :: 0 <= i < k ==> images[i].title != t
    ensures k < |images| ==> images[k].title == t
  {
    if images == [] || images[0].title == t then 0 else 1 + FirstTitled(images[1..], t)
  }

  /** The image of a page: nothing without an image title; otherwise the URL of the first
      image URL with exactly that title, or nothing when none has it. */
  function ImageFor(title: Option<string>, images: seq<ImageUrl>): (r: Option<string>)
    ensures r.None? <==> title.None? || forall i :: 0 <= i < |images| ==> images[i].title != title.value
    ensures r.Some? ==> exists i :: 0 <= i < |images| && images[i] == ImageUrl(title.value, r.value) &&
                                    forall k :: 0 <= k < i ==> images[k].title != title.value
  {
    if title.None? then None
    else
      var k := FirstTitled(images, title.value);
      if k < |images| then
        assert images[k] == ImageUrl(title.value, images[k].url);
        Some(images[k].url)
      else None
  }

  /** `find_image`: a search with an early return. */
  method FindImage(title: Option<string>, images: seq<ImageUrl>) returns (r: Option<string>)
    ensures r == ImageFor(title, images)
  {
    if title.None? {
      return None;
    }
    var t := title.value;
    for i := 0 to |images|
      invariant forall k :: 0 <= k < i ==> images[k].title != t
    {
      if images[i].title == t {
        assert FirstTitled(images, t) == i;
        return Some(images[i].url);
      }
    }
    return None;
  }

  // ---------------------------------------------------------------------------
  // find_friends

  /** A friend belongs to a page when its title is the page title or one of the aliases. */
  predicate Links(title: string, aliases: seq<string>, f: Friend) {
    f.title == title || f.title in aliases
  }

  /** The ids of the linked friends, in friend order. */
  function LinkedIds(title: string, aliases: seq<string>, friends: seq<Friend>): seq<nat>
  {
    if friends == [] then []
    else
      var n := |friends| - 1;
      LinkedIds(title, aliases, friends[..n]) + (if Links(title, aliases, friends[n]) then [friends[n].id] else [])
  }

  /** An id is linked exactly when some friend with that id has the page title or an alias
      as its title, and each friend adds at most one id. */
  lemma {:induction false} LinkedIdsMembers(title: string, aliases: seq<string>, friends: seq<Friend>)
    ensures |LinkedIds(title, aliases, friends)| <= |friends|
    ensures forall x :: x in LinkedIds(title, aliases, friends) <==>
                        exists i :: 0 <= i < |friends| && friends[i].id == x && Links(title, aliases, friends[i])
  {
    if friends != [] {
      var n := |friends| - 1;
      LinkedIdsMembers(title, aliases, friends[..n]);
      forall x
        ensures x in LinkedIds(title, aliases, friends) <==>
                exists i :: 0 <= i < |friends| && friends[i].id == x && Links(title, aliases, friends[i])
      {
        if x in LinkedIds(title, aliases, friends[..n]) {
          var i :| 0 <= i < n && friends[..n][i].id == x && Links(title, aliases, friends[..n][i]);
          assert friends[i] == friends[..n][i];
        }
        if exists i :: 0 <= i < |friends| && friends[i].id == x && Links(title, aliases, friends[i]) {
          var i :| 0 <= i < |friends| && friends[i].id == x && Links(title, aliases, friends[i]);
          if i < n {
            assert friends[..n][i] == friends[i];
          }
        }
      }
    }
  }

  /** The ids follow the order of the friends: those of an earlier part of the list come
      first. */
  lemma {:induction false} LinkedIdsAppend(title: string, aliases: seq<string>, a: seq<Friend>, b: seq<Friend>)
    ensures LinkedIds(title, aliases, a + b) == LinkedIds(title, aliases, a) + LinkedIds(title, aliases, b)
    decreases |b|
  {
    if b == [] {
      assert a + b == a;
    } else {
      var n := |b| - 1;
      assert (a + b)[..|a + b| - 1] == a + b[..n];
      assert (a + b)[|a + b| - 1] == b[n];
      LinkedIdsAppend(title, aliases, a, b[..n]);
    }
  }

  /** Friends with distinct ids give a page each id at most once. */
  lemma {:induction false} LinkedIdsDistinct(title: string, aliases: seq<string>, friends: seq<Friend>)
    requires forall i, j :: 0 <= i < j < |friends| ==> friends[i].id != friends[j].id
    ensures forall i, j :: 0 <= i < j < |LinkedIds(title, aliases, friends)| ==>
              LinkedIds(title, aliases, friends)[i] != LinkedIds(title, aliases, friends)[j]
  {
    if friends != [] {
      var n := |friends| - 1;
      var before := LinkedIds(title, aliases, friends[..n]);
      LinkedIdsDistinct(title, aliases, friends[..n]);
      LinkedIdsMembers(title, aliases, friends[..n]);
      assert friends[n].id !in before;
    }
  }

  /** `find_friends`. */
  method FindFriends(title: string, aliases: seq<string>, friends: seq<Friend>) returns (ids: seq<nat>)
    ensures ids == LinkedIds(title, aliases, friends)
  {
    ids := [];
    for i := 0 to |friends|
      invariant ids == LinkedIds(title, aliases, friends[..i])
    {
      assert friends[..i + 1][..i] == friends[..i];
      var friend := friends[i];
      if friend.title == title {
        ids := ids + [friend.id];
      } else if friend.title in aliases {
        ids := ids + [friend.id];
      } else {
        assert LinkedIds(title, aliases, friends[..i + 1]) == ids + [];
      }
    }
    assert friends[..|friends|] == friends;
  }

  // ---------------------------------------------------------------------------
  // make

  /** `Page::make`: one page per partial page, in order, title and URL unchanged, whether or
      not any friend links to it. */
  function MakePages(partials: seq<PartialPage>, images: seq<ImageUrl>, friends: seq<Friend>): (pages: seq<Page>)
    ensures |pages| == |partials|
    ensures forall i :: 0 <= i < |partials| ==>
              pages[i].title == partials[i].title && pages[i].url == partials[i].url
    ensures forall i :: 0 <= i < |partials| ==> pages[i].image == ImageFor(partials[i].imageTitle, images)
    ensures forall i :: 0 <= i < |partials| ==>
              pages[i].friends == LinkedIds(partials[i].title, partials[i].aliases, friends)
  {
    seq(|partials|, i requires 0 <= i < |partials| =>
      Page(LinkedIds(partials[i].title, partials[i].aliases, friends), partials[i].title, partials[i].url,
           ImageFor(partials[i].imageTitle, images)))
  }

  /** A page never links a friend whose title matches neither the page title nor an alias. */
  lemma MakePagesLinksOnlyMatches(partials: seq<PartialPage>, images: seq<ImageUrl>, friends: seq<Friend>, i: nat, j: nat)
    requires i < |partials| && j < |friends|
    requires forall k :: 0 <= k < |friends| && k != j ==> friends[k].id != friends[j].id
    requires friends[j].title != partials[i].title && friends[j].title !in partials[i].aliases
    ensures friends[j].id !in MakePages(partials, images, friends)[i].friends
  {
    LinkedIdsMembers(partials[i].title, partials[i].aliases, friends);
  }
}
