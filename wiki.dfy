/** What the two wiki lookups share: the window size `MAX_TITLES`, the error type, the reply
    of the wiki's HTTP endpoint, and the cutting of a long list into request windows that are
    requested one after another. */
module Wiki {
  import opened Base

  /** `MAX_TITLES`: titles per request, kept below the wiki's own limit of 50. */
  const MaxTitles: nat := 45

  /** `WikiError`: a status other than OK, or a failure to send or to decode the reply. */
  datatype WikiError = StatusError(code: nat) | RequestError

  /** What one GET to the wiki API comes back with; `body` is `None` when the JSON of an OK
      reply does not decode into the expected records. */
  datatype Reply<T> = TransportFailure | Replied(status: nat, body: Option<T>)

  /** The checks every `make_request` makes: a failed send, then the status (the body of a
      non-OK reply is never read), then decoding. */
  function Outcome<T>(reply: Reply<T>): (r: Result<T, WikiError>)
    ensures r.Ok? <==> reply.Replied? && reply.status == StatusOk && reply.body.Some?
    ensures r.Ok? ==> r.value == reply.body.value
    ensures reply.Replied? && reply.status != StatusOk ==> r == Err(StatusError(reply.status))
    ensures r == Err(RequestError) <==>
            reply.TransportFailure? || (reply.status == StatusOk && reply.body.None?)
  {
    match reply
    case TransportFailure => Err(RequestError)
    case Replied(status, body) =>
      if status != StatusOk then Err(StatusError(status))
      else if body.None? then Err(RequestError)
      else Ok(body.value)
  }

  // ---------------------------------------------------------------------------
  // Windows

  /** The slices the `get` loops request: full windows of `MaxTitles` while more than that
      many are left, then one last window with the rest, which may be empty. */
  function Windows<T>(xs: seq<T>): seq<seq<T>>
    decreases |xs|
  {
    if |xs| > MaxTitles then [xs[..MaxTitles]] + Windows(xs[MaxTitles..]) else [xs]
  }

  function Flatten<T>(ws: seq<seq<T>>): seq<T>
  {
    if ws == [] then [] else ws[0] + Flatten(ws[1..])
  }

  /** The windows cover the input exactly and in order; none is longer than `MaxTitles`,
      all but the last are full, and the last is empty only for an empty input. */
  lemma {:induction false} WindowsCover<T>(xs: seq<T>)
    ensures Flatten(Windows(xs)) == xs
    ensures forall i :: 0 <= i < |Windows(xs)| ==> |Windows(xs)[i]| <= MaxTitles
    ensures forall i :: 0 <= i < |Windows(xs)| - 1 ==> |Windows(xs)[i]| == MaxTitles
    ensures Windows(xs) != [] && (Windows(xs)[|Windows(xs)| - 1] == [] <==> xs == [])
    decreases |xs|
  {
    if |xs| > MaxTitles {
      var ws := Windows(xs);
      var rest := xs[MaxTitles..];
      WindowsCover(rest);
      assert ws[1..] == Windows(rest);
      assert xs[..MaxTitles] + rest == xs;
      forall i | 0 <= i < |ws|
        ensures |ws[i]| <= MaxTitles
        ensures i < |ws| - 1 ==> |ws[i]| == MaxTitles
      {
        if i > 0 {
          assert ws[i] == Windows(rest)[i - 1];
        }
      }
    } else {
      assert Windows(xs)[1..] == [];
    }
  }

  /** Exactly one request when the input fits one window (even when it is empty), and in
      general `1 + ceil((n - MaxTitles) / MaxTitles)` of them, which is `ceil(n / MaxTitles)`
      for a non-empty input. */
  lemma {:induction false} WindowsCount<T>(xs: seq<T>)
    ensures |xs| <= MaxTitles ==> |Windows(xs)| == 1
    ensures |xs| > MaxTitles ==>
              |Windows(xs)| == 1 + (|xs| - MaxTitles + MaxTitles - 1) / MaxTitles
    ensures xs != [] ==> |Windows(xs)| == (|xs| + MaxTitles - 1) / MaxTitles
    decreases |xs|
  {
    if |xs| > MaxTitles {
      WindowsCount(xs[MaxTitles..]);
    }
  }

  /** The windows that remain once `index` titles have been requested, as the loop sees them. */
  lemma WindowsFrom<T>(xs: seq<T>, index: nat)
    requires index <= |xs|
    ensures |xs| - index > MaxTitles ==>
              Windows(xs[index..]) == [xs[index..index + MaxTitles]] + Windows(xs[index + MaxTitles..])
    ensures |xs| - index <= MaxTitles ==> Windows(xs[index..]) == [xs[index..]]
  {
    if |xs| - index > MaxTitles {
      assert xs[index..][..MaxTitles] == xs[index..index + MaxTitles];
      assert xs[index..][MaxTitles..] == xs[index + MaxTitles..];
    }
  }

  // ---------------------------------------------------------------------------
  // Requesting the windows

  /** The `get` loops: each window is requested in turn; the first failing window's error is
      the result (`?`), otherwise the per-window results are concatenated. */
  function Batched<T, R>(ws: seq<seq<T>>, request: seq<T> -> Result<seq<R>, WikiError>): Result<seq<R>, WikiError>
  {
    if ws == [] then Ok([])
    else
      match request(ws[0])
      case Err(e) => Err(e)
      case Ok(rs) => Then(rs, Batched(ws[1..], request))
  }

  /** Results already gathered in front of the outcome of the remaining requests. */
  function Then<R>(done: seq<R>, r: Result<seq<R>, WikiError>): (t: Result<seq<R>, WikiError>)
    ensures t.Ok? <==> r.Ok?
    ensures t.Ok? ==> |t.value| == |done| + |r.value|
    ensures t.Ok? ==> t.value[..|done|] == done && t.value[|done|..] == r.value
    ensures t.Err? ==> t == r
  {
    match r
    case Err(_) => r
    case Ok(more) => Ok(done + more)
  }

  /** The results of all windows, in window order. */
  function AllResults<T, R>(ws: seq<seq<T>>, request: seq<T> -> Result<seq<R>, WikiError>): seq<seq<R>>
    requires forall i :: 0 <= i < |ws| ==> request(ws[i]).Ok?
  {
    seq(|ws|, i requires 0 <= i < |ws| => request(ws[i]).value)
  }

  /** The batch succeeds exactly when every window does, and then returns their results
      concatenated in window order. */
  lemma {:induction false} BatchedOk<T, R>(ws: seq<seq<T>>, request: seq<T> -> Result<seq<R>, WikiError>)
    ensures Batched(ws, request).Ok? <==> forall i :: 0 <= i < |ws| ==> request(ws[i]).Ok?
    ensures Batched(ws, request).Ok? ==> Batched(ws, request).value == Flatten(AllResults(ws, request))
  {
    if ws != [] {
      BatchedOk(ws[1..], request);
      assert forall i :: 1 <= i < |ws| ==> ws[i] == ws[1..][i - 1];
      if Batched(ws, request).Ok? {
        assert AllResults(ws, request)[1..] == AllResults(ws[1..], request);
      }
    }
  }

  /** A failed batch fails with the error of its first failing window; nothing gathered
      before it survives. */
  lemma {:induction false} BatchedErr<T, R>(ws: seq<seq<T>>, request: seq<T> -> Result<seq<R>, WikiError>)
    requires Batched(ws, request).Err?
    ensures exists k :: 0 <= k < |ws| && request(ws[k]) == Err(Batched(ws, request).error)
                        && forall i :: 0 <= i < k ==> request(ws[i]).Ok?
  {
    if request(ws[0]).Ok? {
      BatchedErr(ws[1..], request);
      var k :| 0 <= k < |ws[1..]| && request(ws[1..][k]) == Err(Batched(ws[1..], request).error)
               && forall i :: 0 <= i < k ==> request(ws[1..][i]).Ok?;
      assert request(ws[k + 1]) == Err(Batched(ws, request).error);
      forall i | 0 <= i < k + 1
        ensures request(ws[i]).Ok?
      {
        if i > 0 {
          assert ws[i] == ws[1..][i - 1];
        }
      }
    }
  }

  /** One turn of a `get` loop: the next full window is requested, then the rest. */
  lemma BatchedFrom<T, R>(xs: seq<T>, index: nat, request: seq<T> -> Result<seq<R>, WikiError>)
    requires index <= |xs|
    ensures |xs| - index > MaxTitles ==>
              Batched(Windows(xs[index..]), request) ==
              match request(xs[index..index + MaxTitles])
              case Err(e) => Err(e)
              case Ok(rs) => Then(rs, Batched(Windows(xs[index + MaxTitles..]), request))
    ensures |xs| - index <= MaxTitles ==> Batched(Windows(xs[index..]), request) == request(xs[index..])
  {
    WindowsFrom(xs, index);
    if |xs| - index > MaxTitles {
      assert ([xs[index..index + MaxTitles]] + Windows(xs[index + MaxTitles..]))[1..]
          == Windows(xs[index + MaxTitles..]);
    } else {
      assert [xs[index..]][1..] == [];
      match request(xs[index..])
      case Err(_) =>
      case Ok(rs) => assert rs + [] == rs;
    }
  }

  /** Gathered results in front of gathered results. */
  lemma ThenThen<R>(a: seq<R>, b: seq<R>, r: Result<seq<R>, WikiError>)
    ensures Then(a, Then(b, r)) == Then(a + b, r)
  {
    if r.Ok? {
      assert a + (b + r.value) == (a + b) + r.value;
    }
  }
}
