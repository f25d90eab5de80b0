/** Reading the bot's inbox: unread messages, fetched page by page behind a cursor, and
    marking them read, each request made through the session. */
module Messages {
  import opened Base
  import opened Reddit
  import opened Sessions

  /** `Message`: an inbox entry, `name` being its reddit fullname. */
  datatype Message = Message(name: string, author: string, subreddit: Option<string>, body: string)

  /** `MAX_MESSAGES`: the most messages reddit returns for one request. */
  const MaxMessages: nat := 100

  /** One request for unread messages: the cursor and the page size. */
  datatype PageRequest = PageRequest(after: Option<string>, limit: nat)

  /** What the inbox endpoint answers; `listing` is `None` when the body does not decode. */
  datatype FetchReply = FetchUnreachable | Fetched(status: nat, listing: Option<seq<Message>>)

  /** What the mark-read endpoint answers. */
  datatype PostReply = PostUnreachable | Posted(status: nat)

  /** A call through the session: its result, the session state after it, and the clock. */
  datatype Call<T> = Call(result: Result<T, RedditError>, state: SessionState, clock: nat)

  // ---------------------------------------------------------------------------
  // One page

  /** The `after` cursor: nothing before the first page, then the last message collected. */
  function Cursor(collected: seq<Message>): (after: Option<string>)
    ensures after.None? <==> collected == []
    ensures after.Some? ==> after.value == collected[|collected| - 1].name
  {
    if |collected| != 0 then Some(collected[|collected| - 1].name) else None
  }

  /** The page size asked for with a limit: what is still missing, at most `MaxMessages`. */
  function PageLimit(lim: nat, collected: nat): (l: nat)
    requires collected < lim
    ensures 1 <= l <= MaxMessages && l <= lim - collected
    ensures l == MaxMessages || l == lim - collected
  {
    if lim - collected < MaxMessages then lim - collected else MaxMessages
  }

  /** The status checks of a request to the inbox. */
  function ListingOutcome(reply: FetchReply): (r: Result<seq<Message>, RedditError>)
    ensures r.Ok? <==> reply.Fetched? && reply.status == StatusOk && reply.listing.Some?
    ensures r.Ok? ==> r.value == reply.listing.value
    ensures reply.FetchUnreachable? ==> r == Err(OtherError)
    ensures reply.Fetched? && reply.status == StatusUnauthorized ==> r == Err(Unauthorized)
    ensures reply.Fetched? && reply.status != StatusOk && reply.status != StatusUnauthorized ==>
              r == Err(OtherStatus(reply.status))
  {
    match reply
    case FetchUnreachable => Err(OtherError)
    case Fetched(status, listing) =>
      if status == StatusOk then
        if listing.Some? then Ok(listing.value) else Err(OtherError)
      else if status == StatusUnauthorized then Err(Unauthorized)
      else Err(OtherStatus(status))
  }

  /** `get_messages`: `prepare`, then `bearer` (its error ends the call), then the request
      with the token. `login` is what the login endpoint answers at each clock, `fetch` what
      the inbox answers to each request and token. */
  function FetchPage(s: SessionState, now: nat, req: PageRequest,
                     login: nat -> LoginReply, fetch: (PageRequest, string) -> FetchReply): (r: Call<seq<Message>>)
    ensures r.clock == PrepareClock(s, now)
    ensures r.state == BearerStep(s, r.clock, login(r.clock)).1
    ensures BearerStep(s, r.clock, login(r.clock)).0.Err? ==>
              r.result == Err(BearerStep(s, r.clock, login(r.clock)).0.error)
    ensures BearerStep(s, r.clock, login(r.clock)).0.Ok? ==>
              r.result == ListingOutcome(fetch(req, BearerStep(s, r.clock, login(r.clock)).0.value))
  {
    var t := PrepareClock(s, now);
    var b := BearerStep(s, t, login(t));
    if b.0.Err? then Call(Err(b.0.error), b.1, t)
    else Call(ListingOutcome(fetch(req, b.0.value)), b.1, t)
  }

  // ---------------------------------------------------------------------------
  // Pagination

  /** `get_unread` with a limit, from `collected` on: pages are requested while fewer than
      `lim` messages are collected, and an empty page ends the loop. */
  function UnreadLimited(s: SessionState, now: nat, lim: nat, collected: seq<Message>,
                         login: nat -> LoginReply, fetch: (PageRequest, string) -> FetchReply): Call<seq<Message>>
    decreases lim - |collected|
  {
    if |collected| >= lim then Call(Ok(collected), s, now)
    else
      var f := FetchPage(s, now, PageRequest(Cursor(collected), PageLimit(lim, |collected|)), login, fetch);
      if f.result.Err? then Call(Err(f.result.error), f.state, f.clock)
      else if f.result.value == [] then Call(Ok(collected), f.state, f.clock)
      else UnreadLimited(f.state, f.clock, lim, collected + f.result.value, login, fetch)
  }

  /** `get_unread` without a limit: pages of `MaxMessages` until an empty one. The loop has
      no bound of its own, so at most `fuel` pages are followed here, and `None` stands for
      a loop still running after that many. */
  function UnreadAll(s: SessionState, now: nat, collected: seq<Message>, fuel: nat,
                     login: nat -> LoginReply, fetch: (PageRequest, string) -> FetchReply): Option<Call<seq<Message>>>
    decreases fuel
  {
    if fuel == 0 then None
    else
      var f := FetchPage(s, now, PageRequest(Cursor(collected), MaxMessages), login, fetch);
      if f.result.Err? then Some(Call(Err(f.result.error), f.state, f.clock))
      else if f.result.value == [] then Some(Call(Ok(collected), f.state, f.clock))
      else UnreadAll(f.state, f.clock, collected + f.result.value, fuel - 1, login, fetch)
  }

  /** The inbox keeps to the page size it is asked for. */
  ghost predicate KeepsLimits(fetch: (PageRequest, string) -> FetchReply) {
    forall req, token :: fetch(req, token).Fetched? && fetch(req, token).listing.Some? ==>
      |fetch(req, token).listing.value| <= req.limit
  }

  /** The messages collected so far stay in front, the pages follow in request order, and
      when the inbox keeps to the page sizes the limit is never overshot. */
  lemma {:induction false} UnreadLimitedExtends(s: SessionState, now: nat, lim: nat, collected: seq<Message>,
                                               login: nat -> LoginReply, fetch: (PageRequest, string) -> FetchReply)
    ensures var r := UnreadLimited(s, now, lim, collected, login, fetch);
            r.result.Ok? ==> |collected| <= |r.result.value| && r.result.value[..|collected|] == collected
    ensures var r := UnreadLimited(s, now, lim, collected, login, fetch);
            r.result.Ok? && KeepsLimits(fetch) && |collected| <= lim ==> |r.result.value| <= lim
    decreases lim - |collected|
  {
    if |collected| < lim {
      var req := PageRequest(Cursor(collected), PageLimit(lim, |collected|));
      var f := FetchPage(s, now, req, login, fetch);
      if f.result.Ok? && f.result.value != [] {
        var next := collected + f.result.value;
        UnreadLimitedExtends(f.state, f.clock, lim, next, login, fetch);
        var r := UnreadLimited(f.state, f.clock, lim, next, login, fetch);
        if r.result.Ok? {
          assert r.result.value[..|next|][..|collected|] == collected;
        }
        if KeepsLimits(fetch) {
          var token := BearerStep(s, f.clock, login(f.clock)).0.value;
          assert fetch(req, token).Fetched? && fetch(req, token).listing.Some?;
          assert |f.result.value| <= req.limit;
        }
      }
    }
  }

  /** The same for the loop without a limit. */
  lemma {:induction false} UnreadAllExtends(s: SessionState, now: nat, collected: seq<Message>, fuel: nat,
                                           login: nat -> LoginReply, fetch: (PageRequest, string) -> FetchReply)
    ensures var r := UnreadAll(s, now, collected, fuel, login, fetch);
            r.Some? && r.value.result.Ok? ==>
              |collected| <= |r.value.result.value| && r.value.result.value[..|collected|] == collected
    decreases fuel
  {
    if fuel > 0 {
      var f := FetchPage(s, now, PageRequest(Cursor(collected), MaxMessages), login, fetch);
      if f.result.Ok? && f.result.value != [] {
        var next := collected + f.result.value;
        UnreadAllExtends(f.state, f.clock, next, fuel - 1, login, fetch);
        var r := UnreadAll(f.state, f.clock, next, fuel - 1, login, fetch);
        if r.Some? && r.value.result.Ok? {
          assert r.value.result.value[..|next|][..|collected|] == collected;
        }
      }
    }
  }

  /** The limited loop stops short of the limit only on an empty page: the last request
      asked for the page after the last message collected, and got nothing back. */
  lemma {:induction false} UnreadLimitedStops(s: SessionState, now: nat, lim: nat, collected: seq<Message>,
                                             login: nat -> LoginReply, fetch: (PageRequest, string) -> FetchReply)
    ensures var r := UnreadLimited(s, now, lim, collected, login, fetch);
            r.result.Ok? && |r.result.value| < lim ==>
              exists s': SessionState, t: nat ::
                FetchPage(s', t, PageRequest(Cursor(r.result.value), PageLimit(lim, |r.result.value|)), login, fetch)
                == Call(Ok([]), r.state, r.clock)
    decreases lim - |collected|
  {
    if |collected| < lim {
      var req := PageRequest(Cursor(collected), PageLimit(lim, |collected|));
      var f := FetchPage(s, now, req, login, fetch);
      if f.result.Ok? {
        if f.result.value == [] {
          assert FetchPage(s, now, req, login, fetch) == Call(Ok([]), f.state, f.clock);
        } else {
          UnreadLimitedStops(f.state, f.clock, lim, collected + f.result.value, login, fetch);
        }
      }
    }
  }

  /** The loop without a limit stops, within its fuel, only on an empty page. */
  lemma {:induction false} UnreadAllStops(s: SessionState, now: nat, collected: seq<Message>, fuel: nat,
                                         login: nat -> LoginReply, fetch: (PageRequest, string) -> FetchReply)
    ensures var r := UnreadAll(s, now, collected, fuel, login, fetch);
            r.Some? && r.value.result.Ok? ==>
              exists s': SessionState, t: nat ::
                FetchPage(s', t, PageRequest(Cursor(r.value.result.value), MaxMessages), login, fetch)
                == Call(Ok([]), r.value.state, r.value.clock)
    decreases fuel
  {
    if fuel > 0 {
      var req := PageRequest(Cursor(collected), MaxMessages);
      var f := FetchPage(s, now, req, login, fetch);
      if f.result.Ok? {
        if f.result.value == [] {
          assert FetchPage(s, now, req, login, fetch) == Call(Ok([]), f.state, f.clock);
        } else {
          UnreadAllStops(f.state, f.clock, collected + f.result.value, fuel - 1, login, fetch);
        }
      }
    }
  }

  /** A limit that is already met asks for nothing and leaves session and clock as they are. */
  lemma UnreadLimitedMet(s: SessionState, now: nat, lim: nat, collected: seq<Message>,
                         login: nat -> LoginReply, fetch: (PageRequest, string) -> FetchReply)
    requires lim <= |collected|
    ensures UnreadLimited(s, now, lim, collected, login, fetch) == Call(Ok(collected), s, now)
  {
  }

  /** `get_messages`. */
  method GetMessages(session: Session, now: nat, req: PageRequest,
                     login: nat -> LoginReply, fetch: (PageRequest, string) -> FetchReply)
    returns (r: Result<seq<Message>, RedditError>, clock: nat)
    modifies session
    ensures Call(r, session.State(), clock) == FetchPage(old(session.State()), now, req, login, fetch)
  {
    clock := session.Prepare(now);
    var bearer := session.Bearer(clock, login(clock));
    if bearer.Err? {
      return Err(bearer.error), clock;
    }
    var reply := fetch(req, bearer.value);
    if reply.FetchUnreachable? {
      return Err(OtherError), clock;
    }
    if reply.status == StatusOk {
      if reply.listing.None? {
        return Err(OtherError), clock;
      }
      r := Ok(reply.listing.value);
    } else if reply.status == StatusUnauthorized {
      r := Err(Unauthorized);
    } else {
      r := Err(OtherStatus(reply.status));
    }
  }

  /** `get_unread` with a limit. */
  method GetUnreadLimited(session: Session, now: nat, lim: nat,
                          login: nat -> LoginReply, fetch: (PageRequest, string) -> FetchReply)
    returns (r: Result<seq<Message>, RedditError>, clock: nat)
    modifies session
    ensures Call(r, session.State(), clock) == UnreadLimited(old(session.State()), now, lim, [], login, fetch)
  {
    var messages: seq<Message> := [];
    clock := now;
    while |messages| < lim
      invariant UnreadLimited(old(session.State()), now, lim, [], login, fetch) ==
                UnreadLimited(session.State(), clock, lim, messages, login, fetch)
      decreases lim - |messages|
    {
      var after := if |messages| != 0 then Some(messages[|messages| - 1].name) else None;
      ghost var before := session.State();
      ghost var start := clock;
      var msgs;
      if lim - |messages| < MaxMessages {
        msgs, clock := GetMessages(session, clock, PageRequest(after, lim - |messages|), login, fetch);
      } else {
        msgs, clock := GetMessages(session, clock, PageRequest(after, MaxMessages), login, fetch);
      }
      assert Call(msgs, session.State(), clock) ==
             FetchPage(before, start, PageRequest(Cursor(messages), PageLimit(lim, |messages|)), login, fetch);
      if msgs.Err? {
        return Err(msgs.error), clock;
      }
      if |msgs.value| == 0 {
        return Ok(messages), clock;
      }
      messages := messages + msgs.value;
    }
    r := Ok(messages);
  }

  /** `get_unread` without a limit, following at most `fuel` pages; `None` when that many
      have been followed without reaching an empty page. */
  method GetUnreadAll(session: Session, now: nat, fuel: nat,
                      login: nat -> LoginReply, fetch: (PageRequest, string) -> FetchReply)
    returns (r: Option<Result<seq<Message>, RedditError>>, clock: nat)
    modifies session
    ensures r.None? <==> UnreadAll(old(session.State()), now, [], fuel, login, fetch).None?
    ensures r.Some? ==> Some(Call(r.value, session.State(), clock)) == UnreadAll(old(session.State()), now, [], fuel, login, fetch)
  {
    var messages: seq<Message> := [];
    clock := now;
    var left := fuel;
    while left > 0
      invariant UnreadAll(old(session.State()), now, [], fuel, login, fetch) ==
                UnreadAll(session.State(), clock, messages, left, login, fetch)
    {
      var after := if |messages| != 0 then Some(messages[|messages| - 1].name) else None;
      var msgs;
      msgs, clock := GetMessages(session, clock, PageRequest(after, MaxMessages), login, fetch);
      if msgs.Err? {
        return Some(Err(msgs.error)), clock;
      }
      if |msgs.value| == 0 {
        return Some(Ok(messages)), clock;
      }
      messages := messages + msgs.value;
      left := left - 1;
    }
    r := None;
  }

  // ---------------------------------------------------------------------------
  // mark_read

  function Names(messages: seq<Message>): (names: seq<string>)
    ensures |names| == |messages|
    ensures forall i :: 0 <= i < |messages| ==> names[i] == messages[i].name
  {
    seq(|messages|, i requires 0 <= i < |messages| => messages[i].name)
  }

  /** The form body of `mark_read`: `id=` and every fullname followed by a comma. */
  function MarkReadBody(messages: seq<Message>): string
  {
    "id=" + JoinTerminated(Names(messages), ',')
  }

  /** Reddit reads the fullnames back from the body, as long as none contains a comma. */
  lemma MarkReadBodySplits(messages: seq<Message>)
    requires forall i :: 0 <= i < |messages| ==> ',' !in messages[i].name
    ensures MarkReadBody(messages)[..3] == "id="
    ensures SplitTerminated(MarkReadBody(messages)[3..], ',') == Names(messages)
  {
    assert MarkReadBody(messages)[3..] == JoinTerminated(Names(messages), ',');
    SplitJoinTerminated(Names(messages), ',');
  }

  /** The status checks of the mark-read request; they map a status exactly as those of a
      listing do. */
  function PostOutcome(reply: PostReply): (r: Result<(), RedditError>)
    ensures r.Ok? <==> reply == Posted(StatusOk)
    ensures reply.PostUnreachable? ==> r == Err(OtherError)
    ensures reply.Posted? && reply.status == StatusUnauthorized ==> r == Err(Unauthorized)
    ensures reply.Posted? && reply.status != StatusOk && reply.status != StatusUnauthorized ==>
              r == Err(OtherStatus(reply.status))
  {
    match reply
    case PostUnreachable => Err(OtherError)
    case Posted(status) =>
      if status == StatusOk then Ok(())
      else if status == StatusUnauthorized then Err(Unauthorized)
      else Err(OtherStatus(status))
  }

  /** `mark_read`: nothing at all for an empty list; otherwise `prepare`, `bearer` (its error
      ends the call) and one request with the token. */
  function MarkReadCall(s: SessionState, now: nat, messages: seq<Message>,
                        login: nat -> LoginReply, post: (string, string) -> PostReply): (r: Call<()>)
    ensures messages == [] ==> r == Call(Ok(()), s, now)
    ensures messages != [] ==> r.clock == PrepareClock(s, now) && r.state == BearerStep(s, r.clock, login(r.clock)).1
    ensures messages != [] && BearerStep(s, r.clock, login(r.clock)).0.Err? ==>
              r.result == Err(BearerStep(s, r.clock, login(r.clock)).0.error)
    ensures messages != [] && BearerStep(s, r.clock, login(r.clock)).0.Ok? ==>
              r.result == PostOutcome(post(MarkReadBody(messages), BearerStep(s, r.clock, login(r.clock)).0.value))
  {
    if messages == [] then Call(Ok(()), s, now)
    else
      var t := PrepareClock(s, now);
      var b := BearerStep(s, t, login(t));
      if b.0.Err? then Call(Err(b.0.error), b.1, t)
      else Call(PostOutcome(post(MarkReadBody(messages), b.0.value)), b.1, t)
  }

  /** The loop of `mark_read` that builds the list of fullnames. */
  method JoinNames(messages: seq<Message>) returns (names: string)
    ensures names == JoinTerminated(Names(messages), ',')
  {
    names := "";
    for i := 0 to |messages|
      invariant names == JoinTerminated(Names(messages[..i]), ',')
    {
      assert Names(messages[..i + 1]) == Names(messages[..i]) + [messages[i].name];
      JoinTerminatedSnoc(Names(messages[..i]), messages[i].name, ',');
      names := names + messages[i].name + ",";
    }
    assert messages[..|messages|] == messages;
  }

  /** `mark_read`. */
  method MarkRead(session: Session, now: nat, messages: seq<Message>,
                  login: nat -> LoginReply, post: (string, string) -> PostReply)
    returns (r: Result<(), RedditError>, clock: nat)
    modifies session
    ensures Call(r, session.State(), clock) == MarkReadCall(old(session.State()), now, messages, login, post)
  {
    if |messages| == 0 {
      return Ok(()), now;
    }
    var names := JoinNames(messages);
    clock := session.Prepare(now);
    var bearer := session.Bearer(clock, login(clock));
    if bearer.Err? {
      return Err(bearer.error), clock;
    }
    var reply := post("id=" + names, bearer.value);
    if reply.PostUnreachable? {
      return Err(OtherError), clock;
    }
    if reply.status == StatusOk {
      r := Ok(());
    } else if reply.status == StatusUnauthorized {
      r := Err(Unauthorized);
    } else {
      r := Err(OtherStatus(reply.status));
    }
  }
}
