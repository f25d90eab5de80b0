/** One processing cycle's pure middle: the friends asked for in each message, and the reply
    text each message gets once the wiki pages are known. */
module Process {
  import opened Base
  import opened Friends
  import opened Messages
  import opened Pages

  // ---------------------------------------------------------------------------
  // find_friends

  function Ids(friends: seq<Friend>): (ids: seq<nat>)
    ensures |ids| == |friends|
    ensures forall k :: 0 <= k < |friends| ==> ids[k] == friends[k].id
  {
    seq(|friends|, k requires 0 <= k < |friends| => friends[k].id)
  }

  lemma IdsAppend(a: seq<Friend>, b: seq<Friend>)
    ensures Ids(a + b) == Ids(a) + Ids(b)
  {
    assert forall k :: 0 <= k < |b| ==> (a + b)[|a| + k] == b[k];
  }

  /** `find_friends` from id `nextId` on: the messages that mention `user`, each with the ids
      of its friends, and all those friends in message order. */
  function Harvest(messages: seq<Message>, user: string, nextId: nat): (seq<(Message, seq<nat>)>, seq<Friend>)
    decreases |messages|
  {
    if messages == [] then ([], [])
    else
      match Found(messages[0].body, user, nextId)
      case None => Harvest(messages[1..], user, nextId)
      case Some(fs) =>
        var rest := Harvest(messages[1..], user, nextId + |fs|);
        ([(messages[0], Ids(fs))] + rest.0, fs + rest.1)
  }

  /** The messages that mention `user`, an empty friend list included. */
  function Mentioning(messages: seq<Message>, user: string): seq<Message>
  {
    if messages == [] then []
    else (if ScanMentions(messages[0].body, user).Some? then [messages[0]] else []) + Mentioning(messages[1..], user)
  }

  function MessagesOf(pairs: seq<(Message, seq<nat>)>): (ms: seq<Message>)
    ensures |ms| == |pairs|
    ensures forall k :: 0 <= k < |pairs| ==> ms[k] == pairs[k].0
  {
    seq(|pairs|, k requires 0 <= k < |pairs| => pairs[k].0)
  }

  lemma MessagesOfCons(pair: (Message, seq<nat>), pairs: seq<(Message, seq<nat>)>)
    ensures MessagesOf([pair] + pairs) == [pair.0] + MessagesOf(pairs)
  {
    var l := MessagesOf([pair] + pairs);
    forall k | 0 <= k < |l|
      ensures l[k] == ([pair.0] + MessagesOf(pairs))[k]
    {
      if k > 0 {
        assert ([pair] + pairs)[k] == pairs[k - 1];
      }
    }
  }

  /** All ids of the pairs, pair after pair. */
  function PairedIds(pairs: seq<(Message, seq<nat>)>): seq<nat>
  {
    if pairs == [] then [] else pairs[0].1 + PairedIds(pairs[1..])
  }

  /** Exactly the messages that mention `user` are kept, in order. */
  lemma {:induction false} HarvestKeepsMentioning(messages: seq<Message>, user: string, nextId: nat)
    ensures MessagesOf(Harvest(messages, user, nextId).0) == Mentioning(messages, user)
    decreases |messages|
  {
    if messages != [] {
      match Found(messages[0].body, user, nextId)
      case None =>
        assert ScanMentions(messages[0].body, user).None?;
        HarvestKeepsMentioning(messages[1..], user, nextId);
      case Some(fs) =>
        assert ScanMentions(messages[0].body, user).Some?;
        var rest := Harvest(messages[1..], user, nextId + |fs|).0;
        calc {
          MessagesOf([(messages[0], Ids(fs))] + rest);
        == { MessagesOfCons((messages[0], Ids(fs)), rest); }
          [messages[0]] + MessagesOf(rest);
        == { HarvestKeepsMentioning(messages[1..], user, nextId + |fs|); }
          [messages[0]] + Mentioning(messages[1..], user);
        }
    }
  }

  /** The ids of the kept messages, pair after pair, are the ids of the returned friends. */
  lemma {:induction false} HarvestPairsIds(messages: seq<Message>, user: string, nextId: nat)
    ensures PairedIds(Harvest(messages, user, nextId).0) == Ids(Harvest(messages, user, nextId).1)
    decreases |messages|
  {
    if messages != [] {
      match Found(messages[0].body, user, nextId)
      case None =>
        HarvestPairsIds(messages[1..], user, nextId);
      case Some(fs) =>
        var rest := Harvest(messages[1..], user, nextId + |fs|);
        var pairs := [(messages[0], Ids(fs))] + rest.0;
        calc {
          PairedIds(pairs);
        == { assert pairs[1..] == rest.0; }
          Ids(fs) + PairedIds(rest.0);
        == { HarvestPairsIds(messages[1..], user, nextId + |fs|); }
          Ids(fs) + Ids(rest.1);
        == { IdsAppend(fs, rest.1); }
          Ids(fs + rest.1);
        }
    }
  }

  /** The returned friends carry consecutive ids from `nextId` on. */
  lemma {:induction false} HarvestFreshIds(messages: seq<Message>, user: string, nextId: nat)
    ensures forall k :: 0 <= k < |Harvest(messages, user, nextId).1| ==>
              Harvest(messages, user, nextId).1[k].id == nextId + k
    decreases |messages|
  {
    if messages != [] {
      match Found(messages[0].body, user, nextId)
      case None =>
        HarvestFreshIds(messages[1..], user, nextId);
      case Some(fs) =>
        var rest := Harvest(messages[1..], user, nextId + |fs|).1;
        HarvestFreshIds(messages[1..], user, nextId + |fs|);
        assert Harvest(messages, user, nextId).1 == fs + rest;
        forall k | 0 <= k < |fs + rest|
          ensures (fs + rest)[k].id == nextId + k
        {
          if k >= |fs| {
            assert (fs + rest)[k] == rest[k - |fs|];
          }
        }
    }
  }

  /** Friends with consecutive ids have distinct ids. */
  lemma HarvestIdsDistinct(messages: seq<Message>, user: string, nextId: nat)
    ensures forall i, j :: 0 <= i < j < |Harvest(messages, user, nextId).1| ==>
              Harvest(messages, user, nextId).1[i].id != Harvest(messages, user, nextId).1[j].id
  {
    HarvestFreshIds(messages, user, nextId);
  }

  /** `find_friends`; it also returns the next unused id. */
  method FindFriends(messages: seq<Message>, user: string, nextId: nat)
    returns (pairs: seq<(Message, seq<nat>)>, friends: seq<Friend>, next: nat)
    requires IsUsername(user)
    ensures (pairs, friends) == Harvest(messages, user, nextId)
    ensures next == nextId + |friends|
  {
    pairs, friends, next := [], [], nextId;
    assert messages[0..] == messages;
    assert [] + Harvest(messages, user, nextId).0 == Harvest(messages, user, nextId).0;
    assert [] + Harvest(messages, user, nextId).1 == Harvest(messages, user, nextId).1;
    for i := 0 to |messages|
      invariant Harvest(messages, user, nextId) ==
                (pairs + Harvest(messages[i..], user, next).0, friends + Harvest(messages[i..], user, next).1)
      invariant next == nextId + |friends|
    {
      var message := messages[i];
      assert messages[i..][0] == message && messages[i..][1..] == messages[i + 1..];
      var found;
      ghost var id := next;
      found, next := Find(message.body, user, next);
      if found.Some? {
        var rest := Harvest(messages[i + 1..], user, next);
        assert Harvest(messages[i..], user, id) == ([(message, Ids(found.value))] + rest.0, found.value + rest.1);
        assert pairs + ([(message, Ids(found.value))] + rest.0) == (pairs + [(message, Ids(found.value))]) + rest.0;
        assert friends + (found.value + rest.1) == (friends + found.value) + rest.1;
        pairs := pairs + [(message, Ids(found.value))];
        friends := friends + found.value;
      }
    }
    assert messages[|messages|..] == [];
    assert pairs + [] == pairs && friends + [] == friends;
  }

  // ---------------------------------------------------------------------------
  // escape_md

  /** The characters `escape_md` puts a backslash in front of. */
  predicate IsSpecial(c: char) {
    c == '\\' || c == '`' || c == '*' || c == '_' || c == '#'
  }

  function Escaped(s: string): string
  {
    if s == [] then [] else (if IsSpecial(s[0]) then ['\\', s[0]] else [s[0]]) + Escaped(s[1..])
  }

  function CountSpecial(s: string): nat
  {
    if s == [] then 0 else (if IsSpecial(s[0]) then 1 else 0) + CountSpecial(s[1..])
  }

  /** Reading an escaped text as Markdown does: a backslash takes the next character as is. */
  function Unescape(s: string): string
    decreases |s|
  {
    if s == [] then []
    else if s[0] == '\\' && |s| >= 2 then [s[1]] + Unescape(s[2..])
    else [s[0]] + Unescape(s[1..])
  }

  /** One backslash more per special character, and the text reads back unchanged. */
  lemma {:induction false} EscapedSpec(s: string)
    ensures |Escaped(s)| == |s| + CountSpecial(s)
    ensures Unescape(Escaped(s)) == s
  {
    if s != [] {
      EscapedSpec(s[1..]);
      var e := Escaped(s[1..]);
      if IsSpecial(s[0]) {
        assert Escaped(s) == ['\\', s[0]] + e;
        assert (['\\', s[0]] + e)[2..] == e;
      } else {
        assert Escaped(s) == [s[0]] + e;
        assert ([s[0]] + e)[1..] == e;
      }
    }
  }

  /** `escape_md`. */
  method EscapeMd(source: string) returns (fmt: string)
    ensures fmt == Escaped(source)
  {
    fmt := "";
    for i := 0 to |source|
      invariant Escaped(source) == fmt + Escaped(source[i..])
    {
      var c := source[i];
      assert source[i..][0] == c && source[i..][1..] == source[i + 1..];
      if IsSpecial(c) {
        fmt := fmt + ['\\'];
      }
      fmt := fmt + [c];
    }
    assert source[|source|..] == [];
  }

  // ---------------------------------------------------------------------------
  // make_replies

  /** The fixed signature every reply ends with. */
  const Footer: string :=
    "---\n\n^^I'm ^^a ^^bot ^^friend! ^^Message ^^\\/u/YourGamerMom ^^if ^^you ^^have ^^questions ^^or ^^concerns. ^^Check ^^out ^^my ^^[code](https://www.example.com), ^^and ^^my ^^[subreddit](https://www.reddit.com/r/japari_librarian)"

  /** A page is answered to a message when one of its friends came from that message. */
  predicate Shares(page: Page, ids: seq<nat>) {
    exists k :: 0 <= k < |page.friends| && page.friends[k] in ids
  }

  /** The line of one page: a Markdown link to it, a link to its picture if it has one, and
      an empty line after it. */
  function LinkLine(page: Page): string
  {
    "[" + Escaped(page.title) + "](" + page.url + ")"
    + (if page.image.Some? then " ([pic](" + page.image.value + "))" else "")
    + "\n\n"
  }

  /** The line a page contributes to the reply to a message with friend ids `ids`. */
  function LineFor(ids: seq<nat>): Page -> string
  {
    page => if Shares(page, ids) then LinkLine(page) else ""
  }

  /** The lines of the pages answered to a message, in page order. */
  function ReplyLines(pages: seq<Page>, ids: seq<nat>): string
  {
    FlatMap(pages, LineFor(ids))
  }

  function ReplyBody(pages: seq<Page>, ids: seq<nat>): string
  {
    ReplyLines(pages, ids) + Footer
  }

  /** `make_replies`: one reply per message, to its fullname. */
  function Replies(pairs: seq<(Message, seq<nat>)>, pages: seq<Page>): (rs: seq<(string, string)>)
    ensures |rs| == |pairs|
    ensures forall k :: 0 <= k < |pairs| ==> rs[k] == (pairs[k].0.name, ReplyBody(pages, pairs[k].1))
  {
    seq(|pairs|, k requires 0 <= k < |pairs| => (pairs[k].0.name, ReplyBody(pages, pairs[k].1)))
  }

  /** Every reply ends with the footer, and a message none of whose friends led to a page
      gets the footer alone. */
  lemma {:induction false} ReplyBodyShape(pages: seq<Page>, ids: seq<nat>)
    ensures IsSuffix(Footer, ReplyBody(pages, ids))
    ensures (forall k :: 0 <= k < |pages| ==> !Shares(pages[k], ids)) ==> ReplyBody(pages, ids) == Footer
  {
    var b := ReplyBody(pages, ids);
    assert b[|b| - |Footer|..] == Footer;
    if forall k :: 0 <= k < |pages| ==> !Shares(pages[k], ids) {
      NoLines(pages, ids);
    }
  }

  lemma NoLines(pages: seq<Page>, ids: seq<nat>)
    requires forall k :: 0 <= k < |pages| ==> !Shares(pages[k], ids)
    ensures ReplyLines(pages, ids) == []
  {
    FlatMapEmpty(pages, LineFor(ids));
  }

  /** The lines of a list of pages are the lines of its parts, one after the other: each
      page contributes its own line or nothing, independently of the others. */
  lemma ReplyLinesAppend(a: seq<Page>, b: seq<Page>, ids: seq<nat>)
    ensures ReplyLines(a + b, ids) == ReplyLines(a, ids) + ReplyLines(b, ids)
  {
    FlatMapAppend(a, b, LineFor(ids));
  }

  /** A single page gives its line exactly when it shares a friend with the message. */
  lemma ReplyLinesOne(page: Page, ids: seq<nat>)
    ensures ReplyLines([page], ids) == if Shares(page, ids) then LinkLine(page) else ""
  {
    FlatMapStep([page], 0, LineFor(ids));
    assert [page][..1] == [page] && [page][..0] == [];
  }

  /** `make_replies`: one reply per message, to its fullname. */
  method MakeReplies(pairs: seq<(Message, seq<nat>)>, pages: seq<Page>) returns (replies: seq<(string, string)>)
    ensures replies == Replies(pairs, pages)
  {
    replies := [];
    for m := 0 to |pairs|
      invariant replies == Replies(pairs[..m], pages)
    {
      var (message, ids) := pairs[m];
      var fmt := ReplyText(pages, ids);
      assert pairs[..m + 1] == pairs[..m] + [pairs[m]];
      replies := replies + [(message.name, fmt)];
    }
    assert pairs[..|pairs|] == pairs;
  }

  /** The inner loop of `make_replies`: the body of the reply to a message with friend ids
      `ids`. */
  method ReplyText(pages: seq<Page>, ids: seq<nat>) returns (fmt: string)
    ensures fmt == ReplyBody(pages, ids)
  {
    fmt := "";
    for p := 0 to |pages|
      invariant fmt == ReplyLines(pages[..p], ids)
    {
      var page := pages[p];
      FlatMapStep(pages, p, LineFor(ids));
      var shared := AnyShared(page.friends, ids);
      if shared {
        var line := PageLine(page);
        assert line == LineFor(ids)(page);
        fmt := fmt + line;
      } else {
        assert LineFor(ids)(page) == "";
      }
    }
    assert pages[..|pages|] == pages;
    fmt := fmt + Footer;
  }

  /** The `format!` calls of `make_replies` for one page. */
  method PageLine(page: Page) returns (line: string)
    ensures line == LinkLine(page)
  {
    var title := EscapeMd(page.title);
    line := "[" + title + "](" + page.url + ")";
    if page.image.Some? {
      line := line + " ([pic](" + page.image.value + "))";
    }
    line := line + "\n\n";
  }

  /** `page.friends.iter().any(|id| ids.contains(id))`. */
  method AnyShared(friends: seq<nat>, ids: seq<nat>) returns (b: bool)
    ensures b <==> exists k :: 0 <= k < |friends| && friends[k] in ids
  {
    for k := 0 to |friends|
      invariant forall j :: 0 <= j < k ==> friends[j] !in ids
    {
      if friends[k] in ids {
        return true;
      }
    }
    return false;
  }
}
