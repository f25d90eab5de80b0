/** Parsing of friend mentions: a message names the bot as `/u/<bot>` and lists friends as
    double-quoted strings after it; each string becomes a `Friend` whose `title` is the
    wiki page title `<Name>` or `<Name>/<Media suffix>`. */
module Friends {
  import opened Base

  /** The media a friend appears in; `NoMedia` is the source's `Media::None`. */
  datatype Media = NoMedia | Anime | Manga | Nexon | Stage | Pavilion

  /** A parsed friend; `id` stands for the fresh UUID the source draws for each one. */
  datatype Friend = Friend(name: string, media: Media, title: string, id: nat)

  // ---------------------------------------------------------------------------
  // Media

  /** `Media::new`: a forgiving match on the trimmed, lower-cased text. */
  function MediaOf(source: string): Media
  {
    MediaNamed(ToLower(Trim(source)))
  }

  /** The vocabulary of `Media::new`, two spellings each for the game and the stage play. */
  function MediaNamed(key: string): Media
  {
    if key == "anime" then Anime
    else if key == "manga" then Manga
    else if key == "nexon" || key == "nexon game" then Nexon
    else if key == "stage" || key == "stage play" then Stage
    else if key == "pavilion" then Pavilion
    else NoMedia
  }

  /** `Media::wiki_suffix`: what the wiki appends to a friend's name for this media. */
  function WikiSuffix(m: Media): (r: string)
    ensures r == [] <==> m == NoMedia
    ensures r != [] ==> r[0] == '/'
  {
    match m
    case NoMedia => ""
    case Anime => "/Anime"
    case Manga => "/Manga"
    case Nexon => "/Nexon Game"
    case Stage => "/Stage Play"
    case Pavilion => "/Pavilion"
  }

  /** A wiki suffix read back as media text names the same media. */
  lemma MediaOfWikiSuffix(m: Media)
    requires m != NoMedia
    ensures MediaOf(WikiSuffix(m)[1..]) == m
  {
    var s := WikiSuffix(m)[1..];
    SuffixText(m);
    MediaOfUntrimmed(s, ToLower(s));
  }

  /** The text of a suffix has no surrounding white space and lower-cases to a key of the
      vocabulary that names the same media. */
  lemma SuffixText(m: Media)
    requires m != NoMedia
    ensures Trim(WikiSuffix(m)[1..]) == WikiSuffix(m)[1..]
    ensures MediaNamed(ToLower(WikiSuffix(m)[1..])) == m
  {
    TrimUntouched(WikiSuffix(m)[1..]);
    SuffixKey(m);
  }

  lemma SuffixKey(m: Media)
    requires m != NoMedia
    ensures MediaNamed(ToLower(WikiSuffix(m)[1..])) == m
  {
    match m
    case Anime => assert ToLower("Anime") == "anime";
    case Manga => assert ToLower("Manga") == "manga";
    case Nexon => assert ToLower("Nexon Game") == "nexon game";
    case Stage => assert ToLower("Stage Play") == "stage play";
    case Pavilion => assert ToLower("Pavilion") == "pavilion";
  }

  lemma MediaOfUntrimmed(s: string, key: string)
    requires Trim(s) == s && ToLower(s) == key
    ensures MediaOf(s) == MediaNamed(key)
  {
  }

  /** `Media::new` does not care about white space around the text or about its case. */
  lemma MediaOfNormalizes(s: string)
    ensures MediaOf(Trim(s)) == MediaOf(s)
    ensures MediaOf(ToLower(s)) == MediaOf(s)
  {
    TrimIdempotent(s);
    TrimToLower(s);
    ToLowerIdempotent(Trim(s));
  }

  // ---------------------------------------------------------------------------
  // Name formatting

  /** `fmt_name` from a given word-start flag: a letter is upper-cased at a word start and
      lower-cased elsewhere; every other character (the apostrophe included) is copied and
      starts a new word. */
  function FormatFrom(s: string, wordStart: bool): string
  {
    if s == [] then []
    else if IsAlpha(s[0]) then
      [if wordStart then ToUpperChar(s[0]) else ToLowerChar(s[0])] + FormatFrom(s[1..], false)
    else
      [s[0]] + FormatFrom(s[1..], true)
  }

  function FormatName(s: string): string
  {
    FormatFrom(s, true)
  }

  /** Whether position `i` of `s` begins a word: it is first or follows a non-letter. */
  predicate StartsWord(s: string, i: nat)
    requires i < |s|
  {
    i == 0 || !IsAlpha(s[i - 1])
  }

  /** One character of a formatted name, from the characters of the input alone. */
  function FormattedChar(s: string, i: nat): char
    requires i < |s|
  {
    if !IsAlpha(s[i]) then s[i]
    else if StartsWord(s, i) then ToUpperChar(s[i])
    else ToLowerChar(s[i])
  }

  lemma {:induction false} FormatFromAt(s: string, wordStart: bool)
    ensures |FormatFrom(s, wordStart)| == |s|
    ensures forall i :: 1 <= i < |s| ==> FormatFrom(s, wordStart)[i] == FormattedChar(s, i)
    ensures |s| > 0 ==>
              FormatFrom(s, wordStart)[0] ==
              (if !IsAlpha(s[0]) then s[0] else if wordStart then ToUpperChar(s[0]) else ToLowerChar(s[0]))
  {
    if s != [] {
      var t := s[1..];
      var w := !IsAlpha(s[0]);
      FormatFromAt(t, w);
      forall i | 1 <= i < |s|
        ensures FormatFrom(s, wordStart)[i] == FormattedChar(s, i)
      {
        assert FormatFrom(s, wordStart)[i] == FormatFrom(t, w)[i - 1];
        if i > 1 {
          assert FormattedChar(t, i - 1) == FormattedChar(s, i);
        }
      }
    }
  }

  /** `fmt_name` keeps the length and fixes each character by the rule above. */
  lemma FormatNameAt(s: string)
    ensures |FormatName(s)| == |s|
    ensures forall i :: 0 <= i < |s| ==> FormatName(s)[i] == FormattedChar(s, i)
  {
    FormatFromAt(s, true);
  }

  /** Formatting an already formatted name changes nothing. */
  lemma FormatNameIdempotent(s: string)
    ensures FormatName(FormatName(s)) == FormatName(s)
  {
    var t := FormatName(s);
    FormatNameAt(s);
    FormatNameAt(t);
    forall i | 0 <= i < |t|
      ensures FormatName(t)[i] == t[i]
    {
      assert IsAlpha(t[i]) == IsAlpha(s[i]);
      if i > 0 {
        assert IsAlpha(t[i - 1]) == IsAlpha(s[i - 1]);
      }
    }
  }

  /** `fmt_name`, the loop over the characters with its `first_letter` flag. */
  method FmtName(name: string) returns (fmt: string)
    ensures fmt == FormatName(name)
  {
    fmt := "";
    var firstLetter := true;
    for i := 0 to |name|
      invariant FormatName(name) == fmt + FormatFrom(name[i..], firstLetter)
    {
      var c := name[i];
      ghost var wasFirst := firstLetter;
      var pushed: char;
      if IsAlpha(c) {
        if firstLetter {
          pushed := ToUpperChar(c);
          firstLetter := false;
        } else {
          pushed := ToLowerChar(c);
        }
      } else {
        firstLetter := true;
        pushed := c;
      }
      assert pushed == StepChar(c, wasFirst) && firstLetter == !IsAlpha(c);
      FormatFromStep(name, i, wasFirst);
      fmt := fmt + [pushed];
    }
  }

  /** The character `fmt_name` pushes for `c` under the word-start flag `w`. */
  function StepChar(c: char, w: bool): char
  {
    if !IsAlpha(c) then c else if w then ToUpperChar(c) else ToLowerChar(c)
  }

  lemma FormatFromStep(name: string, i: nat, w: bool)
    requires i < |name|
    ensures FormatFrom(name[i..], w) ==
            [StepChar(name[i], w)] + FormatFrom(name[i + 1..], !IsAlpha(name[i]))
  {
    assert name[i..][1..] == name[i + 1..];
  }

  // ---------------------------------------------------------------------------
  // Friend::new

  /** `Friend::new`: a leading backslash keeps the rest verbatim; otherwise the text is cut
      at its first `/` into a name and a media. */
  function FriendOf(source: string, id: nat): (f: Friend)
    ensures f.id == id
    ensures f.title == f.name + WikiSuffix(f.media)
  {
    if |source| > 0 && source[0] == '\\' then
      Friend(source[1..], NoMedia, source[1..], id)
    else
      var k := IndexOf(source, '/');
      var name := FormatName(Trim(source[..k]));
      var media := MediaOf(if k < |source| then source[k + 1..] else "");
      Friend(name, media, name + WikiSuffix(media), id)
  }

  /** An escaped friend is the text after the backslash, untouched, with no media. */
  lemma FriendOfEscaped(rest: string, id: nat)
    ensures FriendOf(['\\'] + rest, id) == Friend(rest, NoMedia, rest, id)
  {
    assert (['\\'] + rest)[1..] == rest;
  }

  /** Only the first `/` splits: whatever follows it, further slashes included, is media text. */
  lemma FriendOfSplit(name: string, media: string, id: nat)
    requires '/' !in name
    requires name == [] || name[0] != '\\'
    ensures FriendOf(name + ['/'] + media, id) ==
            Friend(FormatName(Trim(name)), MediaOf(media),
                   FormatName(Trim(name)) + WikiSuffix(MediaOf(media)), id)
  {
    var s := name + ['/'] + media;
    assert s[0] != '\\' by {
      assert name != [] ==> s[0] == name[0];
    }
    assert IndexOf(s, '/') == |name| by {
      assert forall k :: 0 <= k < |name| ==> s[k] == name[k];
      assert s[|name|] == '/';
    }
    assert s[..IndexOf(s, '/')] == name by {
      assert s[..|name|] == name;
    }
    assert (if IndexOf(s, '/') < |s| then s[IndexOf(s, '/') + 1..] else "") == media by {
      assert s[|name| + 1..] == media;
    }
    FriendOfPlain(s, id);
  }

  /** `FriendOf` on text that does not start with a backslash. */
  lemma FriendOfPlain(source: string, id: nat)
    requires source == [] || source[0] != '\\'
    ensures FriendOf(source, id) ==
            var k := IndexOf(source, '/');
            var name := FormatName(Trim(source[..k]));
            var media := MediaOf(if k < |source| then source[k + 1..] else "");
            Friend(name, media, name + WikiSuffix(media), id)
  {
  }

  /** Without any `/` the whole text is the name and there is no media. */
  lemma FriendOfNoSlash(name: string, id: nat)
    requires '/' !in name
    requires name == [] || name[0] != '\\'
    ensures FriendOf(name, id) == Friend(FormatName(Trim(name)), NoMedia, FormatName(Trim(name)), id)
  {
    assert IndexOf(name, '/') == |name|;
    assert name[..|name|] == name;
    MediaOfEmpty();
  }

  lemma MediaOfEmpty()
    ensures MediaOf("") == NoMedia
  {
    TrimUntouched("");
    assert ToLower("") == "";
    assert MediaNamed("") == NoMedia;
  }

  /** `Friend::new`. */
  method NewFriend(source: string, id: nat) returns (f: Friend)
    ensures f == FriendOf(source, id)
  {
    if |source| > 0 && source[0] == '\\' {
      var name := source[1..];
      return Friend(name, NoMedia, name, id);
    }
    var name, media := SplitAtSlash(source);
    var formatted := FmtName(Trim(name));
    var m := MediaOf(media);
    f := Friend(formatted, m, formatted + WikiSuffix(m), id);
  }

  /** The two character loops of `Friend::new`: everything before the first `/` is the
      name, everything after it the media text. */
  method SplitAtSlash(source: string) returns (name: string, media: string)
    ensures name == source[..IndexOf(source, '/')]
    ensures media == if IndexOf(source, '/') < |source| then source[IndexOf(source, '/') + 1..] else ""
  {
    name, media := "", "";
    var i := 0;
    while i < |source|
      invariant 0 <= i <= |source|
      invariant name == source[..i]
      invariant '/' !in name
    {
      var c := source[i];
      if c == '/' {
        break;
      }
      name := name + [c];
      i := i + 1;
    }
    ghost var slash := IndexOf(source, '/');
    assert i == slash;
    if i < |source| {
      i := i + 1;
    }
    var mediaStart := i;
    while i < |source|
      invariant mediaStart <= i <= |source|
      invariant media == source[mediaStart..i]
    {
      media := media + [source[i]];
      i := i + 1;
    }
  }

  // ---------------------------------------------------------------------------
  // Friend::find

  /** The characters allowed in a reddit username (`USERNAME_CHARS`). */
  predicate IsUsernameChar(c: char) {
    IsAlpha(c) || ('0' <= c <= '9') || c == '_' || c == '-'
  }

  predicate IsUsername(s: string) {
    forall k :: 0 <= k < |s| ==> IsUsernameChar(s[k])
  }

  /** Length of the run of username characters that `s` starts with. */
  function UsernameLength(s: string): (n: nat)
    ensures n <= |s|
    ensures forall k :: 0 <= k < n ==> IsUsernameChar(s[k])
    ensures n < |s| ==> !IsUsernameChar(s[n])
  {
    if |s| > 0 && IsUsernameChar(s[0]) then 1 + UsernameLength(s[1..]) else 0
  }

  /** The length of the run is the one position where username characters stop. */
  lemma {:induction false} UsernameLengthIs(s: string, n: nat)
    requires n <= |s|
    requires forall k :: 0 <= k < n ==> IsUsernameChar(s[k])
    requires n < |s| ==> !IsUsernameChar(s[n])
    ensures UsernameLength(s) == n
  {
    if n > 0 {
      UsernameLengthIs(s[1..], n - 1);
    }
  }

  /** What is left once the character at position `n` (if any) has been consumed too. */
  function After(s: string, n: nat): (r: string)
    requires n <= |s|
    ensures |r| <= |s| - n
  {
    if n < |s| then s[n + 1..] else []
  }

  /** The collection loop after a matching mention: white space is skipped, each `"..."`
      (the last one possibly unterminated) is one raw friend, anything else stops. */
  function QuotedNames(s: string): seq<string>
    decreases |s|
  {
    if s == [] then []
    else if s[0] == '"' then
      var q := IndexOf(s[1..], '"');
      [s[1..1 + q]] + QuotedNames(After(s[1..], q))
    else if IsWhitespace(s[0]) then QuotedNames(s[1..])
    else []
  }

  /** The scanning loop: it looks for `/u/`, reads the username run (consuming the
      character that ends it), and stops at the first run equal to `target`. */
  function ScanMentions(s: string, target: string): Option<seq<string>>
    decreases |s|
  {
    if |s| == 0 then None
    else if s[0] != '/' then ScanMentions(s[1..], target)
    else if |s| == 1 then None
    else if s[1] != 'u' then ScanMentions(s[2..], target)
    else if |s| == 2 then None
    else if s[2] != '/' then ScanMentions(s[3..], target)
    else
      var rest := s[3..];
      var n := UsernameLength(rest);
      if rest[..n] == target then Some(QuotedNames(After(rest, n)))
      else ScanMentions(After(rest, n), target)
  }

  /** A complete mention of `target` starts at position `j`: `/u/`, the username, and then
      the end of the text or a character that cannot continue a username. */
  ghost predicate MentionAt(s: string, j: nat, target: string) {
    && j + 3 + |target| <= |s|
    && s[j..j + 3] == "/u/"
    && s[j + 3..j + 3 + |target|] == target
    && (j + 3 + |target| == |s| || !IsUsernameChar(s[j + 3 + |target|]))
  }

  /** The friends collected after the mention at `j`. */
  function NamesAfter(s: string, j: nat, target: string): seq<string>
    requires j + 3 + |target| <= |s|
  {
    QuotedNames(After(s[j + 3..], |target|))
  }

  /** The scanner only succeeds on a real mention of the target, and then returns the names
      quoted after that mention. */
  lemma {:induction false} ScanMentionsSound(s: string, target: string)
    requires IsUsername(target)
    requires ScanMentions(s, target).Some?
    ensures exists j: nat :: MentionAt(s, j, target) && j + 3 + |target| <= |s|
                             && ScanMentions(s, target).value == NamesAfter(s, j, target)
    decreases |s|
  {
    var r := ScanMentions(s, target);
    if s[0] != '/' {
      ShiftMention(s, 1, target);
    } else if s[1] != 'u' {
      ShiftMention(s, 2, target);
    } else if s[2] != '/' {
      ShiftMention(s, 3, target);
    } else {
      var rest := s[3..];
      var n := UsernameLength(rest);
      if rest[..n] == target {
        assert s[0..3] == "/u/";
        assert s[3..3 + |target|] == target;
        assert MentionAt(s, 0, target);
        assert r.value == NamesAfter(s, 0, target);
      } else {
        var m := if n < |rest| then n + 4 else |s|;
        assert After(rest, n) == s[m..];
        ShiftMention(s, m, target);
      }
    }
  }

  /** Soundness carried over from a suffix of the text to the whole text. */
  lemma {:induction false} ShiftMention(s: string, m: nat, target: string)
    requires IsUsername(target)
    requires 0 < m <= |s|
    requires ScanMentions(s[m..], target).Some?
    ensures exists j: nat :: MentionAt(s, j, target) && j + 3 + |target| <= |s|
                             && ScanMentions(s[m..], target).value == NamesAfter(s, j, target)
    decreases |s|, 0
  {
    var t := s[m..];
    ScanMentionsSound(t, target);
    var j: nat :| MentionAt(t, j, target) && j + 3 + |target| <= |t|
                  && ScanMentions(t, target).value == NamesAfter(t, j, target);
    MentionInSuffix(s, m, j, target);
  }

  /** A mention in a suffix of the text is a mention in the text, with the same names after
      it. */
  lemma MentionInSuffix(s: string, m: nat, j: nat, target: string)
    requires m <= |s| && MentionAt(s[m..], j, target)
    ensures MentionAt(s, m + j, target)
    ensures NamesAfter(s[m..], j, target) == NamesAfter(s, m + j, target)
  {
    var t := s[m..];
    assert t[j..j + 3] == s[m + j..m + j + 3];
    assert t[j + 3..j + 3 + |target|] == s[m + j + 3..m + j + 3 + |target|];
    assert t[j + 3..] == s[m + j + 3..];
  }

  /** A mention of the target before which the text has no `/` is always found, and its
      quoted names are returned. */
  lemma {:induction false} ScanMentionsFindsFirst(s: string, j: nat, target: string)
    requires IsUsername(target)
    requires MentionAt(s, j, target)
    requires forall k :: 0 <= k < j ==> s[k] != '/'
    ensures ScanMentions(s, target) == Some(NamesAfter(s, j, target))
    decreases j
  {
    if j == 0 {
      assert s[0] == '/' && s[1] == 'u' && s[2] == '/' by {
        assert s[0..3] == "/u/";
      }
      var rest := s[3..];
      assert rest[..|target|] == target;
      UsernameLengthIs(rest, |target|);
    } else {
      var t := s[1..];
      assert t[j - 1..j + 2] == s[j..j + 3];
      assert t[j + 2..j + 2 + |target|] == s[j + 3..j + 3 + |target|];
      assert MentionAt(t, j - 1, target);
      ScanMentionsFindsFirst(t, j - 1, target);
      assert t[j + 2..] == s[j + 3..];
    }
  }

  /** A mention followed, after optional white space, by anything but a quote yields an
      empty friend list. */
  lemma {:induction false} QuotedNamesNone(s: string, i: nat)
    requires i <= |s|
    requires forall k :: 0 <= k < i ==> IsWhitespace(s[k])
    requires i == |s| || (s[i] != '"' && !IsWhitespace(s[i]))
    ensures QuotedNames(s) == []
    decreases i
  {
    if i > 0 {
      assert IsWhitespace(s[0]) && s[0] != '"';
      assert forall k :: 0 <= k < i - 1 ==> s[1..][k] == s[k + 1];
      QuotedNamesNone(s[1..], i - 1);
    }
  }

  /** A quoted friend is taken whole, up to its closing quote. */
  lemma QuotedNamesCons(name: string, rest: string)
    requires '"' !in name
    ensures QuotedNames(['"'] + name + ['"'] + rest) == [name] + QuotedNames(rest)
  {
    var s := ['"'] + name + ['"'] + rest;
    var t := s[1..];
    assert t == name + ['"'] + rest;
    assert forall k :: 0 <= k < |name| ==> t[k] == name[k];
    assert IndexOf(t, '"') == |name| by {
      assert t[|name|] == '"';
    }
    assert s[1..1 + |name|] == name;
    assert After(t, |name|) == rest;
  }

  /** The friends for a list of raw names, with consecutive fresh ids. */
  function FriendsOf(names: seq<string>, nextId: nat): (fs: seq<Friend>)
    ensures |fs| == |names|
    ensures forall k :: 0 <= k < |fs| ==> fs[k] == FriendOf(names[k], nextId + k)
  {
    seq(|names|, k requires 0 <= k < |names| => FriendOf(names[k], nextId + k))
  }

  lemma FriendsOfSnoc(names: seq<string>, name: string, nextId: nat)
    ensures FriendsOf(names + [name], nextId) == FriendsOf(names, nextId) + [FriendOf(name, nextId + |names|)]
  {
    var l := FriendsOf(names + [name], nextId);
    var r := FriendsOf(names, nextId) + [FriendOf(name, nextId + |names|)];
    assert |l| == |r|;
    forall k | 0 <= k < |l| ensures l[k] == r[k] {
      if k < |names| {
        assert (names + [name])[k] == names[k];
        assert r[k] == FriendsOf(names, nextId)[k];
      } else {
        assert (names + [name])[k] == name;
      }
    }
  }

  /** What `Friend::find` returns, ids drawn from `nextId` on. */
  function Found(source: string, target: string, nextId: nat): Option<seq<Friend>>
  {
    match ScanMentions(source, target)
    case None => None
    case Some(names) => Some(FriendsOf(names, nextId))
  }

  /** `Friend::find`: the scanner over the characters of the message. The source asserts
      that the target is a valid username. */
  method Find(source: string, target: string, nextId: nat) returns (found: Option<seq<Friend>>, next: nat)
    requires IsUsername(target)
    ensures found == Found(source, target, nextId)
    ensures next == nextId + (if found.Some? then |found.value| else 0)
  {
    var i := 0;
    while i < |source|
      invariant 0 <= i <= |source|
      invariant ScanMentions(source[i..], target) == ScanMentions(source, target)
      decreases |source| - i
    {
      var at := i;
      var c := source[i];
      i := i + 1;
      if c != '/' {
        assert source[at..][1..] == source[i..];
        continue;
      }
      if i == |source| {
        break;
      }
      var c1 := source[i];
      i := i + 1;
      if c1 != 'u' {
        assert source[at..][2..] == source[i..];
        continue;
      }
      if i == |source| {
        break;
      }
      var c2 := source[i];
      i := i + 1;
      if c2 != '/' {
        assert source[at..][3..] == source[i..];
        continue;
      }
      assert source[at..][3..] == source[i..];
      var user;
      user, i := ReadUsername(source, i);
      if user == target {
        var friends;
        friends, next := CollectFriends(source, i, nextId);
        return Some(friends), next;
      }
    }
    return None, nextId;
  }

  /** The username loop of `find`: username characters up to the first other one, which is
      consumed as well. */
  method ReadUsername(source: string, start: nat) returns (user: string, i: nat)
    requires start <= |source|
    ensures user == source[start..][..UsernameLength(source[start..])]
    ensures i <= |source| && source[i..] == After(source[start..], UsernameLength(source[start..]))
  {
    user := "";
    i := start;
    while i < |source|
      invariant start <= i <= |source|
      invariant user == source[start..i]
      invariant IsUsername(user)
    {
      var c := source[i];
      i := i + 1;
      if IsUsernameChar(c) {
        user := user + [c];
      } else {
        break;
      }
    }
    ghost var rest := source[start..];
    UsernameLengthIs(rest, |user|);
    assert rest[..|user|] == user;
  }

  /** The collection loop of `find` after a matching mention, one fresh id per friend. */
  method CollectFriends(source: string, start: nat, nextId: nat) returns (friends: seq<Friend>, next: nat)
    requires start <= |source|
    ensures friends == FriendsOf(QuotedNames(source[start..]), nextId)
    ensures next == nextId + |friends|
  {
    ghost var names := QuotedNames(source[start..]);
    ghost var taken: seq<string> := [];
    friends, next := [], nextId;
    var i := start;
    while i < |source|
      invariant start <= i <= |source|
      invariant names == taken + QuotedNames(source[i..])
      invariant friends == FriendsOf(taken, nextId)
      invariant next == nextId + |taken|
    {
      var from := i;
      var c := source[i];
      i := i + 1;
      if c == '"' {
        var quoted;
        quoted, i := ReadQuoted(source, from);
        assert QuotedNames(source[from..]) == [quoted] + QuotedNames(source[i..]) by {
          QuotedNamesHead(source[from..]);
          assert source[from..][1..] == source[from + 1..];
        }
        var f := NewFriend(quoted, next);
        assert friends + [f] == FriendsOf(taken + [quoted], nextId) by {
          FriendsOfSnoc(taken, quoted, nextId);
        }
        AppendAssoc(taken, [quoted], QuotedNames(source[i..]));
        friends := friends + [f];
        taken := taken + [quoted];
        next := next + 1;
      } else if !IsWhitespace(c) {
        assert QuotedNames(source[from..]) == [];
        break;
      } else {
        assert QuotedNames(source[from..]) == QuotedNames(source[i..]) by {
          assert source[from..][1..] == source[i..];
        }
      }
    }
    assert taken == names;
  }

  /** A text that opens a quote starts with the name up to the closing quote. */
  lemma QuotedNamesHead(s: string)
    requires s != [] && s[0] == '"'
    ensures QuotedNames(s) ==
            [s[1..][..IndexOf(s[1..], '"')]] + QuotedNames(After(s[1..], IndexOf(s[1..], '"')))
  {
    var q := IndexOf(s[1..], '"');
    assert s[1..1 + q] == s[1..][..q];
  }

  /** A quoted run: everything after the opening quote at `from` up to the closing quote,
      which is consumed, or up to the end of the text. */
  method ReadQuoted(source: string, from: nat) returns (quoted: string, i: nat)
    requires from < |source| && source[from] == '"'
    ensures quoted == source[from + 1..][..IndexOf(source[from + 1..], '"')]
    ensures i <= |source| && source[i..] == After(source[from + 1..], IndexOf(source[from + 1..], '"'))
  {
    quoted := "";
    i := from + 1;
    while i < |source| && source[i] != '"'
      invariant from + 1 <= i <= |source|
      invariant quoted == source[from + 1..i]
      invariant forall k :: from + 1 <= k < i ==> source[k] != '"'
    {
      quoted := quoted + [source[i]];
      i := i + 1;
    }
    ghost var rest := source[from + 1..];
    IndexOfIs(rest, '"', i - from - 1);
    assert rest[..i - from - 1] == quoted;
    if i < |source| {
      i := i + 1;
      assert rest[i - from - 1..] == source[i..];
    } else {
      assert source[i..] == [];
    }
  }

  /** How a user writes a list of friends: each name in double quotes, then a space. */
  function QuoteAll(names: seq<string>): string
  {
    if names == [] then [] else ['"'] + names[0] + ['"', ' '] + QuoteAll(names[1..])
  }

  /** The collection loop reads back exactly the names that were quoted. */
  lemma {:induction false} QuotedNamesOfQuoteAll(names: seq<string>)
    requires forall k :: 0 <= k < |names| ==> '"' !in names[k]
    ensures QuotedNames(QuoteAll(names)) == names
  {
    if names != [] {
      var rest := [' '] + QuoteAll(names[1..]);
      assert QuoteAll(names) == ['"'] + names[0] + ['"'] + rest;
      QuotedNamesCons(names[0], rest);
      assert rest[1..] == QuoteAll(names[1..]);
      QuotedNamesOfQuoteAll(names[1..]);
    }
  }

  /** A message that mentions the bot once, after text without any `/`, and then quotes
      some names gives back exactly those names. */
  lemma MentionRoundTrip(prefix: string, target: string, names: seq<string>)
    requires IsUsername(target)
    requires '/' !in prefix
    requires forall k :: 0 <= k < |names| ==> '"' !in names[k]
    ensures ScanMentions(prefix + "/u/" + target + " " + QuoteAll(names), target) == Some(names)
  {
    var s := prefix + "/u/" + target + " " + QuoteAll(names);
    var j := |prefix|;
    assert s[j..j + 3] == "/u/";
    assert s[j + 3..j + 3 + |target|] == target;
    assert s[j + 3 + |target|] == ' ';
    assert MentionAt(s, j, target);
    ScanMentionsFindsFirst(s, j, target);
    assert After(s[j + 3..], |target|) == QuoteAll(names);
    QuotedNamesOfQuoteAll(names);
  }

  /** A character lost by the scanner can hide a mention: in `//u/bot` the second `/` is
      consumed as the character after the first one, so the mention is never seen. */
  lemma FindSkipsAfterLostCharacter()
    ensures MentionAt("//u/bot", 1, "bot")
    ensures ScanMentions("//u/bot", "bot") == None
  {
    var s := "//u/bot";
    assert s[1..4] == "/u/";
    assert s[4..7] == "bot";
    assert s[2..] == "u/bot";
    assert "u/bot"[1..] == "/bot";
    assert "/bot"[2..] == "ot";
    assert "ot"[1..] == "t";
    assert "t"[1..] == "";
  }
}
