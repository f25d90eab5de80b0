/** Shared value types and the string operations of Rust's `str` that the bot relies on:
    `trim`, ASCII case mapping, `contains`, `ends_with`, searching for a character, and
    the "item followed by separator" joining the bot uses to build request parameters. */
module Base {

  datatype Option<+T> = None | Some(value: T)

  datatype Result<+T, +E> = Ok(value: T) | Err(error: E)

  /** HTTP `200 OK`. */
  const StatusOk: nat := 200

  /** HTTP `401 Unauthorized`. */
  const StatusUnauthorized: nat := 401

  /** Rust's `char::is_whitespace`: the Unicode White_Space property. */
  predicate IsWhitespace(c: char) {
    ('\t' <= c <= '\r') || c == ' ' || c == '\U{0085}' || c == '\U{00A0}' || c == '\U{1680}'
    || ('\U{2000}' <= c <= '\U{200A}') || c == '\U{2028}' || c == '\U{2029}'
    || c == '\U{202F}' || c == '\U{205F}' || c == '\U{3000}'
  }

  predicate IsUpper(c: char) { 'A' <= c <= 'Z' }

  predicate IsLower(c: char) { 'a' <= c <= 'z' }

  /** Alphabetic characters, restricted to ASCII letters. */
  predicate IsAlpha(c: char) { IsUpper(c) || IsLower(c) }

  function ToUpperChar(c: char): (r: char)
    ensures IsAlpha(c) ==> IsUpper(r)
    ensures !IsAlpha(c) ==> r == c
    ensures IsLower(c) ==> r as int == c as int - 32
  {
    if IsLower(c) then (c as int - 32) as char else c
  }

  function ToLowerChar(c: char): (r: char)
    ensures IsAlpha(c) ==> IsLower(r)
    ensures !IsAlpha(c) ==> r == c
    ensures IsUpper(c) ==> r as int == c as int + 32
  {
    if IsUpper(c) then (c as int + 32) as char else c
  }

  /** `str::to_lowercase`, restricted to ASCII case mapping. */
  function ToLower(s: string): (r: string)
    ensures |r| == |s|
    ensures forall i :: 0 <= i < |s| ==> r[i] == ToLowerChar(s[i])
  {
    seq(|s|, i requires 0 <= i < |s| => ToLowerChar(s[i]))
  }

  /** Length of the run of white space that `s` starts with. */
  function LeadingWhitespace(s: string): (n: nat)
    ensures n <= |s|
    ensures forall k :: 0 <= k < n ==> IsWhitespace(s[k])
    ensures n < |s| ==> !IsWhitespace(s[n])
  {
    if |s| > 0 && IsWhitespace(s[0]) then 1 + LeadingWhitespace(s[1..]) else 0
  }

  /** Length of the run of white space that `s` ends with. */
  function TrailingWhitespace(s: string): (n: nat)
    ensures n <= |s|
    ensures forall k :: |s| - n <= k < |s| ==> IsWhitespace(s[k])
    ensures n < |s| ==> !IsWhitespace(s[|s| - n - 1])
  {
    if |s| > 0 && IsWhitespace(s[|s| - 1]) then 1 + TrailingWhitespace(s[..|s| - 1]) else 0
  }

  /** `str::trim_start`. */
  function TrimStart(s: string): string
  {
    s[LeadingWhitespace(s)..]
  }

  /** `str::trim_end`. */
  function TrimEnd(s: string): string
  {
    s[..|s| - TrailingWhitespace(s)]
  }

  /** `str::trim`. */
  function Trim(s: string): string
  {
    TrimEnd(TrimStart(s))
  }

  /** `r` is the slice `s[i..j]`, with only white space before `i` and after `j`. */
  predicate TrimmedAt(s: string, i: nat, j: nat, r: string) {
    && i <= j <= |s|
    && r == s[i..j]
    && (forall k :: 0 <= k < i ==> IsWhitespace(s[k]))
    && (forall k :: j <= k < |s| ==> IsWhitespace(s[k]))
  }

  /** Trimming leaves the slice between two runs of white space, and that slice neither
      starts nor ends with white space. */
  lemma TrimSpec(s: string)
    ensures exists i, j :: TrimmedAt(s, i, j, Trim(s))
    ensures Trim(s) == [] || (!IsWhitespace(Trim(s)[0]) && !IsWhitespace(Trim(s)[|Trim(s)| - 1]))
  {
    var i := LeadingWhitespace(s);
    var t := s[i..];
    var n := TrailingWhitespace(t);
    var j := i + |t| - n;
    assert Trim(s) == t[..|t| - n];
    assert t[..|t| - n] == s[i..j];
    assert forall k :: j <= k < |s| ==> IsWhitespace(s[k]) by {
      forall k | j <= k < |s|
        ensures IsWhitespace(s[k])
      {
        assert s[k] == t[k - i];
      }
    }
    assert TrimmedAt(s, i, j, Trim(s));
  }

  /** Text that neither starts nor ends with white space is left as it is. */
  lemma TrimUntouched(s: string)
    requires s == [] || (!IsWhitespace(s[0]) && !IsWhitespace(s[|s| - 1]))
    ensures Trim(s) == s
  {
    assert LeadingWhitespace(s) == 0;
    assert s[0..] == s;
    assert TrailingWhitespace(s) == 0;
    assert s[..|s|] == s;
  }

  /** Trimming twice is trimming once. */
  lemma TrimIdempotent(s: string)
    ensures Trim(Trim(s)) == Trim(s)
  {
    TrimSpec(s);
    TrimUntouched(Trim(s));
  }

  /** Lower-casing twice is lower-casing once. */
  lemma ToLowerIdempotent(s: string)
    ensures ToLower(ToLower(s)) == ToLower(s)
  {
    assert forall i :: 0 <= i < |s| ==> ToLower(ToLower(s))[i] == ToLower(s)[i];
  }

  /** Lower-casing turns no character into white space and no white space into anything
      else, so it keeps both runs of white space. */
  lemma WhitespaceRunsOfLower(s: string)
    ensures LeadingWhitespace(ToLower(s)) == LeadingWhitespace(s)
    ensures TrailingWhitespace(ToLower(s)) == TrailingWhitespace(s)
  {
    var l := ToLower(s);
    assert forall k :: 0 <= k < |s| ==> (IsWhitespace(l[k]) <==> IsWhitespace(s[k]));
  }

  /** Trimming and lower-casing can be done in either order. */
  lemma TrimToLower(s: string)
    ensures Trim(ToLower(s)) == ToLower(Trim(s))
  {
    TrimStartLower(s);
    TrimEndLower(TrimStart(s));
  }

  lemma TrimStartLower(s: string)
    ensures TrimStart(ToLower(s)) == ToLower(TrimStart(s))
  {
    var a := LeadingWhitespace(s);
    assert LeadingWhitespace(ToLower(s)) == a by {
      WhitespaceRunsOfLower(s);
    }
    LowerSuffix(s, a);
  }

  lemma TrimEndLower(s: string)
    ensures TrimEnd(ToLower(s)) == ToLower(TrimEnd(s))
  {
    var n := TrailingWhitespace(s);
    assert TrailingWhitespace(ToLower(s)) == n by {
      WhitespaceRunsOfLower(s);
    }
    LowerPrefix(s, |s| - n);
  }

  /** Lower-casing a suffix is taking the suffix of the lower-cased text. */
  lemma LowerSuffix(s: string, i: nat)
    requires i <= |s|
    ensures ToLower(s)[i..] == ToLower(s[i..])
  {
    assert forall k :: 0 <= k < |s| - i ==> ToLower(s)[i..][k] == ToLower(s[i..])[k];
  }

  /** Lower-casing a prefix is taking the prefix of the lower-cased text. */
  lemma LowerPrefix(s: string, j: nat)
    requires j <= |s|
    ensures ToLower(s)[..j] == ToLower(s[..j])
  {
    assert forall k :: 0 <= k < j ==> ToLower(s)[..j][k] == ToLower(s[..j])[k];
  }

  predicate IsSuffix(suffix: string, s: string) {
    |suffix| <= |s| && s[|s| - |suffix|..] == suffix
  }

  /** `str::contains` for a string pattern. */
  predicate Contains(s: string, pattern: string)
    decreases |s|
  {
    pattern <= s || (|s| > 0 && Contains(s[1..], pattern))
  }

  /** Position of the first `c` in `s`, or `|s|` when there is none. */
  function IndexOf(s: string, c: char): (r: nat)
    ensures r <= |s|
    ensures forall k :: 0 <= k < r ==> s[k] != c
    ensures r < |s| ==> s[r] == c
  {
    if |s| == 0 || s[0] == c then 0 else 1 + IndexOf(s[1..], c)
  }

  /** The first `c` is at `n` when none comes before `n` and `n` holds one or is the end. */
  lemma {:induction false} IndexOfIs(s: string, c: char, n: nat)
    requires n <= |s|
    requires forall k :: 0 <= k < n ==> s[k] != c
    requires n < |s| ==> s[n] == c
    ensures IndexOf(s, c) == n
  {
    if n > 0 {
      IndexOfIs(s[1..], c, n - 1);
    }
  }

  lemma AppendAssoc<T>(a: seq<T>, b: seq<T>, c: seq<T>)
    ensures (a + b) + c == a + (b + c)
  {
  }

  /** The elements of `xs` that `keep` accepts, in order. */
  function Filter<T>(xs: seq<T>, keep: T -> bool): seq<T>
  {
    if xs == [] then []
    else
      var n := |xs| - 1;
      Filter(xs[..n], keep) + (if keep(xs[n]) then [xs[n]] else [])
  }

  /** A filter keeps exactly the accepted elements, and never more than there are. */
  lemma {:induction false} FilterMembers<T>(xs: seq<T>, keep: T -> bool)
    ensures |Filter(xs, keep)| <= |xs|
    ensures forall x :: x in Filter(xs, keep) <==> x in xs && keep(x)
  {
    if xs != [] {
      var n := |xs| - 1;
      assert xs == xs[..n] + [xs[n]];
      FilterMembers(xs[..n], keep);
    }
  }

  /** Filtering a concatenation filters each part. */
  lemma {:induction false} FilterAppend<T>(a: seq<T>, b: seq<T>, keep: T -> bool)
    ensures Filter(a + b, keep) == Filter(a, keep) + Filter(b, keep)
    decreases |b|
  {
    if b == [] {
      assert a + b == a;
    } else {
      var n := |b| - 1;
      assert (a + b)[..|a + b| - 1] == a + b[..n];
      assert (a + b)[|a + b| - 1] == b[n];
      FilterAppend(a, b[..n], keep);
    }
  }

  /** The `k`-th element kept comes from some position `i` of `xs`, and the elements kept
      before `i` are exactly the first `k` kept. */
  lemma {:induction false} FilterAt<T>(xs: seq<T>, keep: T -> bool, k: nat)
    requires k < |Filter(xs, keep)|
    ensures exists i :: 0 <= i < |xs| && xs[i] == Filter(xs, keep)[k] && Filter(xs[..i], keep) == Filter(xs, keep)[..k]
  {
    var n := |xs| - 1;
    var before := Filter(xs[..n], keep);
    if k < |before| {
      FilterAt(xs[..n], keep, k);
      var i :| 0 <= i < n && xs[..n][i] == before[k] && Filter(xs[..n][..i], keep) == before[..k];
      assert xs[..n][..i] == xs[..i];
      assert xs[i] == Filter(xs, keep)[k];
      assert Filter(xs, keep)[..k] == before[..k];
    } else {
      assert xs[n] == Filter(xs, keep)[k];
      assert Filter(xs, keep)[..k] == before;
    }
  }

  /** The filter of a prefix grows by the next element when it is accepted. */
  lemma FilterStep<T>(xs: seq<T>, i: nat, keep: T -> bool)
    requires i < |xs|
    ensures Filter(xs[..i + 1], keep) == Filter(xs[..i], keep) + (if keep(xs[i]) then [xs[i]] else [])
  {
    assert xs[..i + 1][..i] == xs[..i];
  }

  /** The values `f` gives for the elements of `xs`, in order, skipping those it gives none
      for. */
  function Collect<T, U>(xs: seq<T>, f: T -> Option<U>): seq<U>
  {
    if xs == [] then []
    else
      var n := |xs| - 1;
      Collect(xs[..n], f) + (match f(xs[n]) case None => [] case Some(u) => [u])
  }

  /** Every collected value comes from an element, every value an element gives is
      collected, and there are never more values than elements. */
  lemma {:induction false} CollectMembers<T, U>(xs: seq<T>, f: T -> Option<U>)
    ensures |Collect(xs, f)| <= |xs|
    ensures forall u :: u in Collect(xs, f) <==> exists i :: 0 <= i < |xs| && f(xs[i]) == Some(u)
  {
    if xs != [] {
      var n := |xs| - 1;
      CollectMembers(xs[..n], f);
      forall u
        ensures u in Collect(xs, f) <==> exists i :: 0 <= i < |xs| && f(xs[i]) == Some(u)
      {
        if u in Collect(xs[..n], f) {
          var i :| 0 <= i < n && f(xs[..n][i]) == Some(u);
          assert xs[i] == xs[..n][i];
        }
        if exists i :: 0 <= i < |xs| && f(xs[i]) == Some(u) {
          var i :| 0 <= i < |xs| && f(xs[i]) == Some(u);
          if i < n {
            assert xs[..n][i] == xs[i];
          }
        }
      }
    }
  }

  /** The values of a prefix grow by what the next element gives. */
  lemma CollectStep<T, U>(xs: seq<T>, i: nat, f: T -> Option<U>)
    requires i < |xs|
    ensures Collect(xs[..i + 1], f) == Collect(xs[..i], f) + (match f(xs[i]) case None => [] case Some(u) => [u])
  {
    assert xs[..i + 1][..i] == xs[..i];
  }

  /** What `f` gives for each element of `xs`, one after the other. */
  function FlatMap<T, U>(xs: seq<T>, f: T -> seq<U>): seq<U>
  {
    if xs == [] then [] else var n := |xs| - 1; FlatMap(xs[..n], f) + f(xs[n])
  }

  /** Mapping a concatenation maps each part. */
  lemma {:induction false} FlatMapAppend<T, U>(a: seq<T>, b: seq<T>, f: T -> seq<U>)
    ensures FlatMap(a + b, f) == FlatMap(a, f) + FlatMap(b, f)
    decreases |b|
  {
    if b == [] {
      assert a + b == a;
    } else {
      var n := |b| - 1;
      assert (a + b)[..|a + b| - 1] == a + b[..n];
      assert (a + b)[|a + b| - 1] == b[n];
      FlatMapAppend(a, b[..n], f);
    }
  }

  /** The map of a prefix grows by what the next element gives. */
  lemma FlatMapStep<T, U>(xs: seq<T>, i: nat, f: T -> seq<U>)
    requires i < |xs|
    ensures FlatMap(xs[..i + 1], f) == FlatMap(xs[..i], f) + f(xs[i])
  {
    assert xs[..i + 1][..i] == xs[..i];
  }

  /** Elements for which `f` gives nothing contribute nothing. */
  lemma {:induction false} FlatMapEmpty<T, U>(xs: seq<T>, f: T -> seq<U>)
    requires forall k :: 0 <= k < |xs| ==> f(xs[k]) == []
    ensures FlatMap(xs, f) == []
  {
    if xs != [] {
      var n := |xs| - 1;
      assert forall k :: 0 <= k < n ==> xs[..n][k] == xs[k];
      FlatMapEmpty(xs[..n], f);
    }
  }

  /** Each part followed by `sep`: the shape of the wiki `titles` parameter and of the
      mark-read body. */
  function JoinTerminated(parts: seq<string>, sep: char): (r: string)
  {
    if parts == [] then [] else parts[0] + [sep] + JoinTerminated(parts[1..], sep)
  }

  /** Cuts a string at every `sep`; a trailing part without a separator is kept. */
  function SplitTerminated(s: string, sep: char): seq<string>
    decreases |s|
  {
    if s == [] then []
    else
      var k := IndexOf(s, sep);
      [s[..k]] + (if k < |s| then SplitTerminated(s[k + 1..], sep) else [])
  }

  lemma {:induction false} JoinTerminatedLength(parts: seq<string>, sep: char)
    ensures |JoinTerminated(parts, sep)| >= |parts|
    ensures parts != [] ==> JoinTerminated(parts, sep)[|JoinTerminated(parts, sep)| - 1] == sep
  {
    if parts != [] {
      JoinTerminatedLength(parts[1..], sep);
    }
  }

  /** Appending one more part appends it and its separator, as the building loops do. */
  lemma {:induction false} JoinTerminatedSnoc(parts: seq<string>, part: string, sep: char)
    ensures JoinTerminated(parts + [part], sep) == JoinTerminated(parts, sep) + part + [sep]
  {
    if parts != [] {
      assert (parts + [part])[1..] == parts[1..] + [part];
      JoinTerminatedSnoc(parts[1..], part, sep);
    }
  }

  /** Joining loses nothing as long as no part contains the separator. */
  lemma {:induction false} SplitJoinTerminated(parts: seq<string>, sep: char)
    requires forall i :: 0 <= i < |parts| ==> sep !in parts[i]
    ensures SplitTerminated(JoinTerminated(parts, sep), sep) == parts
  {
    if parts != [] {
      var s := JoinTerminated(parts, sep);
      var p := parts[0];
      var rest := JoinTerminated(parts[1..], sep);
      assert s == p + [sep] + rest;
      assert IndexOf(s, sep) == |p| by {
        assert forall k :: 0 <= k < |p| ==> s[k] == p[k];
        assert s[|p|] == sep;
      }
      assert s[..|p|] == p;
      assert s[|p| + 1..] == rest;
      SplitJoinTerminated(parts[1..], sep);
    }
  }
}
