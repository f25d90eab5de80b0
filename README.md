# japari-librarian, modelled in Dafny

japari-librarian is a reddit bot for the Kemono Friends community. Its core works in four steps:

1. It reads the bot account's unread messages.
2. In each message that mentions the bot (`/u/<bot> "Serval" "Kaban/anime"`), it collects the quoted friend names. Each name is normalised: capitalisation, an optional `/media` suffix, and a leading backslash that turns formatting off.
3. It asks the Japari Library wiki which pages those names lead to. The wiki answers with redirects and a picture for each page.
4. It replies to each message with a markdown link to every page that one of its friends led to, followed by a signature footer.

The reddit session owns the OAuth token and the rate-limit budget. It logs in again shortly before the token expires, and it waits for the rate-limit reset when fewer than two requests are left.

The model has one module per source file:

| module | file | what it holds |
|---|---|---|
| `Base` | (shared) | `Option` and `Result`, plus the string operations the source takes from Rust's standard library: whitespace trim, ASCII case mapping, searching for a character, and joining with a terminating separator. It also defines three generic list builders: `Filter`, `Collect` (a filter-map) and `FlatMap`. |
| `Friends` | `src/friend.rs` | `Friend`, `Media`, `Friend::new`, `fmt_name`, `Friend::find` |
| `Wiki` | `src/page/mod.rs`, `src/page/partial_page.rs`, `src/page/image_url.rs` | `MAX_TITLES` (src/page/mod.rs:99), `WikiError` (src/page/mod.rs:105-109), the HTTP reply of the wiki, and the windowed request loop that `get` repeats in src/page/partial_page.rs:22-40 and src/page/image_url.rs:16-34 |
| `PartialPages` | `src/page/partial_page.rs` | the page lookup, its redirects (aliases) and the choice of picture |
| `ImageUrls` | `src/page/image_url.rs` | the lookup of the pictures' URLs |
| `Pages` | `src/page/mod.rs` | `Page::make`, `find_image`, `find_friends` |
| `Reddit` | `src/reddit/mod.rs` | `RedditError` |
| `Sessions` | `src/reddit/session.rs` | `Session` as a class with its token, expiry and rate-limit fields |
| `Messages` | `src/reddit/message.rs` | `get_unread` (one page, limited, unlimited) and `mark_read` |
| `Process` | `src/process.rs` | `find_friends`, `make_replies`, `escape_md` |

The form of each module follows the source:

- Loops in the source are methods with loop invariants. Each such method is proved equal to a specification function: `FmtName` to `FormatName`, `Find` to `Found`, `SelectImage` to `ChooseImage`, `MakeReplies` to `Replies`, and so on. The properties are then proved about those functions.
- `Session` is a class whose methods modify its fields. Each method is proved against a pure step function on `SessionState`: `Updated`, `BearerStep`, `PrepareClock`, `WaitClock`.
- The outside world becomes parameters:
  - a clock in whole seconds (`now`);
  - the wiki's reply, as a function from the `titles` parameter to a `Reply`;
  - the login endpoint's reply, as a function of the clock;
  - reddit's listing and `read_message` replies, as functions of the request and the bearer token.
- `Uuid::new_v4` is replaced by a counter. The friends found get the ids `nextId`, `nextId + 1`, … in order.

## Model

| member | source | states |
|---|---|---|
| Base.ToLower | src/friend.rs:227 | `to_lowercase` keeps the length and maps each character on its own: `A`–`Z` become `a`–`z`, and every other character is unchanged |
| Base.ToUpperChar | src/friend.rs:99-102 | `to_uppercase` of a letter gives an upper-case letter (lower-case `c` becomes `c - 32`); any other character is unchanged |
| Base.ToLowerChar | src/friend.rs:107-110 | `to_lowercase` of a letter gives a lower-case letter (upper-case `c` becomes `c + 32`); any other character is unchanged |
| Base.LeadingWhitespace | src/friend.rs:75 | the length of the leading run of whitespace: every character before it is whitespace, and the character at it is not |
| Base.TrailingWhitespace | src/friend.rs:75 | the length of the trailing run of whitespace, with the symmetric property |
| Base.TrimSpec | src/friend.rs:75 | `trim` returns a slice `s[i..j]` with only whitespace before `i` and after `j`; the result is empty or has no whitespace at either end |
| Base.TrimUntouched | src/friend.rs:227 | `trim` leaves a string that does not start or end with whitespace unchanged |
| Base.Trim | src/friend.rs:75 | `trim` as the trailing trim of the leading trim; TrimSpec, TrimUntouched and TrimIdempotent state what it keeps |
| Base.TrimIdempotent | src/friend.rs:227 | trimming a trimmed string changes nothing |
| Base.TrimToLower | src/friend.rs:227 | trimming and lower-casing commute, because lower-casing maps white space to white space and nothing else to it |
| Base.IsSuffix | src/page/partial_page.rs:160 | `ends_with`: the last characters of the string are the suffix |
| Base.Contains | src/page/partial_page.rs:171 | `contains` for a string pattern: the pattern is a prefix of some suffix of the string |
| Base.IndexOf | src/friend.rs:57-68 | the position of the first occurrence of a character, or the length when it does not occur: no occurrence before it, and the character at it |
| Base.SplitJoinTerminated | src/page/partial_page.rs:72-86 | joining parts with a terminating separator and splitting the result gives the parts back, when no part contains the separator |
| Base.JoinTerminatedLength | src/page/partial_page.rs:80-83 | a separator-terminated join ends with the separator and is at least as long as the number of parts |
| Base.JoinTerminatedSnoc | src/reddit/message.rs:139-143 | appending a part to the list appends that part and one separator to the joined string |
| Base.FilterMembers | src/page/partial_page.rs:153-166 | a filter keeps exactly the elements its predicate accepts, and never grows the list |
| Base.FilterAt | src/page/partial_page.rs:157-160 | the `k`-th element a filter keeps sits at some position `i` of the input, and exactly `k` of the elements before `i` are kept |
| Base.CollectMembers | src/page/partial_page.rs:95-101 | a filter-map yields exactly the values that some element maps to, and never grows the list |
| Friends.MediaNamed | src/friend.rs:227-235 | the vocabulary of `Media::new`: `anime`, `manga`, `nexon` or `nexon game`, `stage` or `stage play`, `pavilion`; anything else is no media |
| Friends.MediaOf | src/friend.rs:225-236 | `Media::new` looks the trimmed, lower-cased text up in that vocabulary; MediaOfNormalizes, MediaOfWikiSuffix and MediaOfEmpty state its properties |
| Friends.WikiSuffix | src/friend.rs:239-250 | the suffix is empty exactly for no media, and otherwise starts with a slash |
| Friends.MediaOfWikiSuffix | src/friend.rs:225-250 | parsing a media's own suffix (without the slash) gives that media back |
| Friends.SuffixText | src/friend.rs:227-235 | each suffix text is already trimmed, and lower-cased it names its media |
| Friends.SuffixKey | src/friend.rs:229-233 | the lower-cased suffix of each media is one of the keys `Media::new` accepts for it |
| Friends.MediaOfNormalizes | src/friend.rs:225-236 | `Media::new` gives the same media for the text trimmed and for the text lower-cased: white space around it and its case do not matter |
| Friends.MediaOfEmpty | src/friend.rs:234 | an empty media text is no media |
| Friends.FormatFrom | src/friend.rs:92-118 | `fmt_name` from a given word-start flag, one character at a time; FormatFromAt states it character by character |
| Friends.FormatName | src/friend.rs:88-121 | `fmt_name` from the start of a word; FormatNameAt and FormatNameIdempotent state its properties |
| Friends.FormatFromAt | src/friend.rs:92-118 | the formatted name has the input's length, and each character depends only on the character itself and on whether it starts a word |
| Friends.FormatNameAt | src/friend.rs:88-121 | `fmt_name` upper-cases a letter that follows a non-letter or the start, lower-cases every other letter, and keeps every non-letter |
| Friends.FormatNameIdempotent | src/friend.rs:88-121 | formatting an already formatted name changes nothing |
| Friends.FmtName | src/friend.rs:88-121 | the loop computes `FormatName` |
| Friends.FriendOf | src/friend.rs:35-86 | the friend keeps its id, and its title is its name followed by the media's wiki suffix |
| Friends.FriendOfEscaped | src/friend.rs:42-51 | a source that starts with a backslash gives the rest verbatim as name and title, with no media |
| Friends.FriendOfSplit | src/friend.rs:54-77 | a name, a slash and a media text give the formatted, trimmed name and the media parsed from the text after the first slash |
| Friends.FriendOfNoSlash | src/friend.rs:54-85 | a name with no slash has no media, and its title is its formatted, trimmed name |
| Friends.NewFriend | src/friend.rs:35-86 | the method computes `FriendOf` |
| Friends.SplitAtSlash | src/friend.rs:54-73 | the two loops split the source at the first slash and drop that slash |
| Friends.UsernameLength | src/friend.rs:128-135 | the length of the leading run of reddit username characters |
| Friends.UsernameLengthIs | src/friend.rs:146-160 | a run of username characters that ends at the end of the text or at another character has exactly that length |
| Friends.After | src/friend.rs:146-160 | what is left after reading a username and losing the one character that ends it |
| Friends.ScanMentions | src/friend.rs:137-192 | the scanning loop of `Friend::find`: it reads `/u/` and the username run, losing the character that ends it, and stops at the first run equal to the target; ScanMentionsSound and ScanMentionsFindsFirst state what it finds |
| Friends.QuotedNames | src/friend.rs:166-189 | the collection loop after a matching mention: white space is skipped, each `"..."` is one raw name (the last may be unterminated), anything else stops; QuotedNamesNone, QuotedNamesCons and QuotedNamesOfQuoteAll state its behaviour |
| Friends.ScanMentionsSound | src/friend.rs:137-198 | when the scan finds something, there is a mention `/u/<target>` followed by a non-username character in the text |
| Friends.ShiftMention | src/friend.rs:137-198 | a mention found in a suffix of the text is a mention in the whole text |
| Friends.MentionInSuffix | src/friend.rs:137-198 | a mention at `j` in `s[m..]` is a mention at `m + j` in `s`, and the names quoted after it are the same |
| Friends.ScanMentionsFindsFirst | src/friend.rs:137-192 | when no slash comes before a mention of the target, the scan returns the names quoted after that mention |
| Friends.QuotedNamesNone | src/friend.rs:166-189 | whitespace followed by any character other than a quote or whitespace ends collection with no names |
| Friends.QuotedNamesCons | src/friend.rs:168-184 | a quoted name with no quote inside it is collected, and collection goes on after its closing quote |
| Friends.FriendsOf | src/friend.rs:184 | one friend per collected name, in order, with the ids `nextId`, `nextId + 1`, … |
| Friends.FriendsOfSnoc | src/friend.rs:184 | the friend for one more name is appended, with the next id |
| Friends.Found | src/friend.rs:125-199 | what `Friend::find` returns: nothing without a mention of the target, otherwise one friend per quoted name; Find is proved against it |
| Friends.Find | src/friend.rs:125-199 | the scan computes `Found`, and uses one id per friend it returns |
| Friends.ReadUsername | src/friend.rs:146-160 | the loop reads the longest run of username characters and consumes the character that ends it |
| Friends.CollectFriends | src/friend.rs:166-191 | the loop turns the quoted names after the mention into friends |
| Friends.ReadQuoted | src/friend.rs:170-181 | the loop reads up to the next quote (or the end of the text) and consumes that quote |
| Friends.QuotedNamesOfQuoteAll | src/friend.rs:166-189 | names without quotes, each written in quotes one after another, are collected back unchanged and in order |
| Friends.MentionRoundTrip | src/friend.rs:137-192 | a message with no slash before `/u/<bot> ` followed by quoted names gives back exactly those names |
| Friends.FindSkipsAfterLostCharacter | src/friend.rs:141-156 | the scan misses `/u/bot` in `//u/bot`, because the second `/` is consumed while testing for `u`; the source's comment accepts that a character is lost |
| Wiki.Outcome | src/page/partial_page.rs:61-69 | a reply is `Ok` exactly when it was sent, its status is OK and its body decodes; any other status is a `StatusError` with that status; a failed send or a body that does not decode is a `RequestError` |
| Wiki.Windows | src/page/partial_page.rs:27-37 | the slices the windowed loops request: full windows of 45 while more are left, then the rest; WindowsCover and WindowsCount state their properties |
| Wiki.WindowsCover | src/page/partial_page.rs:22-40 | the windows concatenate back to the whole list; none is longer than `MAX_TITLES`; all but the last are full; and the last is empty only when the list is empty |
| Wiki.WindowsCount | src/page/partial_page.rs:27-37 | a short list takes one request, and a non-empty list takes ⌈n / 45⌉ requests |
| Wiki.Then | src/page/partial_page.rs:29-37 | gathering a window's results after earlier ones keeps the earlier ones first and passes an error through |
| Wiki.ThenThen | src/page/partial_page.rs:22-40 | gathering results is associative |
| Wiki.Batched | src/page/partial_page.rs:22-40 | the windowed loop: each window is requested in turn, the first error ends it, and otherwise the results are concatenated; BatchedOk and BatchedErr state its outcome |
| Wiki.BatchedOk | src/page/partial_page.rs:22-40 | the windowed loop succeeds exactly when every window's request succeeds, and then yields all the results concatenated in order |
| Wiki.BatchedErr | src/page/partial_page.rs:29-37 | a failed loop returns the error of one of its window requests |
| PartialPages.Titles | src/page/partial_page.rs:80-83 | one title per friend, in friend order |
| PartialPages.TitlesParam | src/page/partial_page.rs:72-86 | the `titles` parameter: `Serval` and every friend title, each followed by a vertical bar; TitlesParamSplits states what the wiki reads back |
| PartialPages.TitlesParamSplits | src/page/partial_page.rs:72-86 | the `titles` parameter is `Serval`, then each friend's title, each followed by a vertical bar, and it splits back into exactly those titles |
| PartialPages.MakeTitles | src/page/partial_page.rs:72-86 | the loop builds that parameter |
| PartialPages.Aliases | src/page/partial_page.rs:130-143 | no normalisation list means no aliases |
| PartialPages.AliasesInAppend | src/page/partial_page.rs:130-143 | the aliases from two lists of normalisations are those of the first followed by those of the second, so they keep the reply's order |
| PartialPages.AliasesInMembers | src/page/partial_page.rs:130-143 | the aliases of a title are exactly the `from` names normalised to it |
| PartialPages.IsImageFile | src/page/partial_page.rs:148-160 | the extension filter: the lower-cased title ends with `jpg`, `png`, `jpeg`, `gif`, `bmp` or `tiff` |
| PartialPages.IsOriginal | src/page/partial_page.rs:168-171 | the lower-cased title contains `original` |
| PartialPages.Candidates | src/page/partial_page.rs:157-160 | the image titles that pass the extension filter, in order; CandidatesMembers states its members |
| PartialPages.CandidatesMembers | src/page/partial_page.rs:148-166 | the candidate pictures are exactly the images with a picture-file extension |
| PartialPages.FirstOriginal | src/page/partial_page.rs:169-174 | the position of the first candidate whose lower-cased name contains `original` |
| PartialPages.FirstOriginalAppend | src/page/partial_page.rs:157-185 | when no earlier candidate is an original, the search goes on in the later ones |
| PartialPages.Pick | src/page/partial_page.rs:161-186 | among the candidates, the first whose title contains `original`, or failing that the first; ChooseOriginalAt and ChooseImageFirst state which one is chosen |
| PartialPages.ChooseImage | src/page/partial_page.rs:145-190 | there is no picture exactly when the page has no images or none of them is a picture file; a chosen picture is one of the page's picture files; a chosen picture that is not an original means that no picture file of the page is an original |
| PartialPages.ChooseOriginalAt | src/page/partial_page.rs:169-174 | the first original picture file is chosen, and the search stops there |
| PartialPages.ChooseImageFirst | src/page/partial_page.rs:157-186 | on the raw list of image titles: a chosen original is the first image that is both a picture file and an original, and a chosen picture that is not an original is the first picture file in the list |
| PartialPages.NoOriginalStep | src/page/partial_page.rs:157-185 | one turn of the loop over an image that is not an original picture file |
| PartialPages.SelectImage | src/page/partial_page.rs:145-190 | the loop computes `ChooseImage` |
| PartialPages.PartialOf | src/page/partial_page.rs:106-128 | a page is dropped exactly when it is invalid or missing, or lacks a title or URL; otherwise it keeps its title and URL, its aliases are the names normalised to its title, and its picture is the one `select_image` chooses |
| PartialPages.ParsePage | src/page/partial_page.rs:106-128 | the method computes `PartialOf` |
| PartialPages.ParsedPages | src/page/partial_page.rs:88-104 | the partial pages of the reply's records, in record order; ParsedPagesMembers states its members |
| PartialPages.ParsedPagesMembers | src/page/partial_page.rs:88-104 | the parsed pages are exactly the partial pages of the response's page records |
| PartialPages.ParseResponse | src/page/partial_page.rs:88-104 | the loop computes `ParsedPages` |
| PartialPages.MakeRequest | src/page/partial_page.rs:42-70 | one request for at most `MAX_TITLES` friends gives the `Outcome` of the reply to their titles, parsed |
| PartialPages.Get | src/page/partial_page.rs:22-40 | the result is the windowed batch of requests over the friends |
| ImageUrls.ImageTitlesMembers | src/page/image_url.rs:65-80 | the requested image titles are exactly the picture titles of the partial pages that have one |
| ImageUrls.TitlesParam | src/page/image_url.rs:65-80 | the `titles` parameter: a vertical bar, then every picture title followed by a vertical bar; TitlesParamSplits states what the wiki reads back |
| ImageUrls.TitlesParamSplits | src/page/image_url.rs:65-80 | the `titles` parameter is an empty first title, then each picture title, each followed by a vertical bar, and it splits back into exactly those |
| ImageUrls.MakeTitles | src/page/image_url.rs:65-80 | the loop builds that parameter |
| ImageUrls.UrlOf | src/page/image_url.rs:88-103 | an image record gives a URL exactly when it is neither missing nor invalid and has image info; the URL is the first info's URL, under the record's title |
| ImageUrls.UrlsOf | src/page/image_url.rs:82-107 | the image URLs of the records, in record order; UrlsOfMembers states its members |
| ImageUrls.UrlsOfMembers | src/page/image_url.rs:82-107 | the URLs are exactly those of the records that have one |
| ImageUrls.ParseResponse | src/page/image_url.rs:82-107 | the loop computes `UrlsOf` |
| ImageUrls.MakeRequest | src/page/image_url.rs:36-63 | one request gives the `Outcome` of the reply to the picture titles, parsed |
| ImageUrls.Get | src/page/image_url.rs:16-34 | the result is the windowed batch of requests over the partial pages |
| Pages.FirstTitled | src/page/mod.rs:62-68 | the position of the first image URL with the given title |
| Pages.ImageFor | src/page/mod.rs:54-71 | no picture exactly when the page has no picture title or no image URL has that title; a picture found is the URL of the FIRST image URL with that title |
| Pages.FindImage | src/page/mod.rs:54-71 | the loop with its early return computes `ImageFor` |
| Pages.LinkedIds | src/page/mod.rs:73-90 | the ids of the friends whose title is the page title or one of its aliases, in friend order; LinkedIdsMembers, LinkedIdsAppend and LinkedIdsDistinct state its properties |
| Pages.LinkedIdsAppend | src/page/mod.rs:73-90 | the ids linked from two lists of friends are those of the first followed by those of the second, so they keep the friends' order |
| Pages.LinkedIdsMembers | src/page/mod.rs:73-90 | a page links exactly the ids of the friends whose title is its title or one of its aliases, at most one per friend |
| Pages.LinkedIdsDistinct | src/page/mod.rs:73-90 | friends with distinct ids give a page each id at most once |
| Pages.FindFriends | src/page/mod.rs:73-90 | the loop computes `LinkedIds` |
| Pages.MakePages | src/page/mod.rs:31-52 | one page per partial page, in order, with its title and URL kept, its picture from `find_image` and its friends from `find_friends` |
| Pages.MakePagesLinksOnlyMatches | src/page/mod.rs:31-90 | a page never links a friend whose title is neither its title nor one of its aliases |
| Sessions.Saturate | src/reddit/session.rs:102-104 | `as u32` on the remaining count: unchanged up to 2^32 - 1, that value above it |
| Sessions.TokenExpired | src/reddit/session.rs:138-146 | a token is expired when there is none or it expires within 90 seconds |
| Sessions.Updated | src/reddit/session.rs:98-136 | nothing changes unless both rate-limit headers are present and parse; otherwise the budget and the reset time are taken from them; the token is never touched |
| Sessions.WaitClock | src/reddit/session.rs:148-155 | waiting ends at the reset time when that is still ahead, and at once otherwise |
| Sessions.PrepareClock | src/reddit/session.rs:89-96 | `prepare` waits only when fewer than two requests are left, and then until the reset |
| Sessions.BearerStep | src/reddit/session.rs:50-87 | a fresh token is reused as it is; otherwise the login's headers update the budget; an OK reply with a body stores and returns the new token and its expiry; each other outcome gives its own error and keeps the old token |
| Sessions.Initial | src/reddit/session.rs:25-43 | the state of a new session: no token, no requests left, expiry and reset at the creation time; InitialMustLogIn states what follows |
| Sessions.InitialMustLogIn | src/reddit/session.rs:25-43 | a new session has to log in, and its first `prepare` waits until its creation time |
| Sessions.UpdatedIdempotent | src/reddit/session.rs:98-136 | applying the same headers twice is the same as once |
| Sessions.PrepareIdempotent | src/reddit/session.rs:89-96 | `prepare` right after `prepare` does not wait again |
| Sessions.BearerReusesFreshToken | src/reddit/session.rs:50-87 | after a login that grants at least 90 seconds, the next `bearer` at the same clock reuses the token, whatever the login endpoint would answer |
| Sessions.Session.constructor | src/reddit/session.rs:25-43 | the credentials are stored, with no token, no budget, and expiry and reset at the creation time |
| Sessions.Session.Update | src/reddit/session.rs:98-136 | the method's answer and new state are `Updated` |
| Sessions.Session.Bearer | src/reddit/session.rs:50-87 | the method's answer and new state are `BearerStep` |
| Sessions.Session.Prepare | src/reddit/session.rs:89-96 | the clock after the method is `PrepareClock` |
| Sessions.Session.WaitForReset | src/reddit/session.rs:148-155 | the clock after the method is `WaitClock` |
| Messages.Cursor | src/reddit/message.rs:78-85 | there is no `after` cursor for an empty list; otherwise it is the name of the last message collected |
| Messages.PageLimit | src/reddit/message.rs:87-94 | a page asks for at most 100 messages and never for more than are still wanted: the smaller of the two |
| Messages.ListingOutcome | src/reddit/message.rs:55-69 | OK with a decoded listing gives its messages; a 401 status is `Unauthorized`; any other status is `OtherStatus`; a failed send or a body that does not decode is `OtherError` |
| Messages.FetchPage | src/reddit/message.rs:30-70 | `prepare` and then `bearer` run first; a bearer error is returned with the session it leaves; otherwise the listing is fetched with the token |
| Messages.UnreadLimited | src/reddit/message.rs:76-102 | the limited loop: pages are requested after the last message collected, for at most 100 and no more than still wanted, until the limit is met, an error, or an empty page; UnreadLimitedExtends and UnreadLimitedStops state its properties |
| Messages.UnreadAll | src/reddit/message.rs:103-122 | the unlimited loop: pages of 100 until an error or an empty page, followed here for at most `fuel` pages; UnreadAllExtends and UnreadAllStops state its properties |
| Messages.UnreadLimitedExtends | src/reddit/message.rs:76-102 | the limited loop only appends to what it has collected, and when the inbox keeps to the page sizes requested it never collects more than the limit |
| Messages.UnreadAllExtends | src/reddit/message.rs:103-122 | the unlimited loop only appends to what it has collected |
| Messages.UnreadLimitedStops | src/reddit/message.rs:76-102 | a successful limited loop that ends short of the limit ended on an empty page: the request for the page after its last message, at its clock, returned no messages and left the final state |
| Messages.UnreadAllStops | src/reddit/message.rs:103-122 | a successful unlimited loop ended on an empty page: the request for the page after its last message returned no messages and left the final state |
| Messages.GetMessages | src/reddit/message.rs:30-70 | the method's result, new session state and clock are `FetchPage` |
| Messages.GetUnreadLimited | src/reddit/message.rs:25-102 | the method's result, new state and clock are `UnreadLimited` |
| Messages.GetUnreadAll | src/reddit/message.rs:25-125 | the method's result, new state and clock are `UnreadAll` within the fuel bound, and it gives up exactly when that runs out |
| Messages.Names | src/reddit/message.rs:139-142 | one fullname per message, in order |
| Messages.MarkReadBody | src/reddit/message.rs:137-150 | the form body: `id=` and every fullname followed by a comma; MarkReadBodySplits states what reddit reads back |
| Messages.MarkReadBodySplits | src/reddit/message.rs:137-150 | the body is `id=` followed by each fullname and a comma, and splits back into those names |
| Messages.JoinNames | src/reddit/message.rs:137-143 | the loop builds that comma-terminated list |
| Messages.PostOutcome | src/reddit/message.rs:155-160 | the status check of the mark-read post: OK exactly for status 200; 401 is `Unauthorized`; any other status is `OtherStatus` with that status; a failed send is `OtherError` |
| Messages.MarkReadCall | src/reddit/message.rs:129-161 | nothing is sent and nothing changes for no messages; otherwise the clock is that of `prepare` and the state that of `bearer`; a bearer error is the result, and otherwise the result is `PostOutcome` of the post of the body with the token |
| Messages.MarkRead | src/reddit/message.rs:129-161 | the method's result, new state and clock are `MarkReadCall` |
| Process.Ids | src/process.rs:17 | the ids of the found friends, in order |
| Process.MessagesOf | src/process.rs:17 | the messages of the pairs, in order |
| Process.Harvest | src/process.rs:8-24 | `find_friends` from a given id: the messages in which `find` succeeds, each with the ids of its friends, and all those friends in message order; the Harvest lemmas state its properties |
| Process.HarvestKeepsMentioning | src/process.rs:8-24 | exactly the messages in which `find` succeeds are kept, in order |
| Process.HarvestPairsIds | src/process.rs:13-21 | the ids paired with the messages are, concatenated, the ids of the friends returned |
| Process.HarvestFreshIds | src/process.rs:13-21 | the friends returned carry the ids `nextId`, `nextId + 1`, … in order |
| Process.HarvestIdsDistinct | src/process.rs:8-24 | no two friends returned share an id |
| Process.FindFriends | src/process.rs:8-24 | the loop computes `Harvest`, and uses one id per friend |
| Process.Escaped | src/process.rs:65-82 | `escape_md`: a backslash before each of `\`, `` ` ``, `*`, `_`, `#`; EscapedSpec states what it adds and that it can be undone |
| Process.EscapedSpec | src/process.rs:65-82 | `escape_md` adds one backslash per special character, and removing the backslashes gives the title back |
| Process.EscapeMd | src/process.rs:65-82 | the loop computes `Escaped` |
| Process.Replies | src/process.rs:27-61 | one reply per message, in order, to the message's name, with the reply text for its ids |
| Process.ReplyBody | src/process.rs:33-55 | the reply text for one message: the link lines of the pages it shares a friend with, in page order, then the footer; ReplyBodyShape, NoLines, ReplyLinesAppend and ReplyLinesOne state its shape |
| Process.ReplyBodyShape | src/process.rs:33-55 | every reply ends with the signature footer, and a message none of whose friends led to a page gets only the footer |
| Process.NoLines | src/process.rs:34-49 | pages that share no friend with the message add no text |
| Process.ReplyLinesAppend | src/process.rs:34-49 | the text for two lists of pages is the text of the first followed by the text of the second |
| Process.ReplyLinesOne | src/process.rs:36-48 | a single page adds its link line when it shares a friend with the message, and nothing otherwise |
| Process.MakeReplies | src/process.rs:27-61 | the loop computes `Replies` |
| Process.ReplyText | src/process.rs:33-55 | the inner loop plus the footer compute the reply text for one message |
| Process.LinkLine | src/process.rs:38-47 | the link line of a page; PageLine is proved against it |
| Process.PageLine | src/process.rs:38-47 | the link line is `[escaped title](url)`, then ` ([pic](image))` when there is a picture, then two newlines |
| Process.AnyShared | src/process.rs:36 | true exactly when one of the page's friend ids is among the message's ids |

## Left out

- HTTP, JSON decoding and URL building are left out. The wiki's reply is a function from the `titles` parameter to a `Reply`. The login, listing and `read_message` replies are functions of the clock, or of the request and the token. The fixed query parameters (`action`, `prop`, `format`, `redirects`, …) are not modelled.
- The user agent (`Session::user_agent`, `USER_AGENT`) is not modelled, because it only sets a request header.
- The `x-ratelimit-*` headers arrive already parsed: absent, unparsable, or a whole number. The source parses the remaining count as `f64` before the saturating `as u32`. Fractional and negative counts are not modelled, because floating point is left out.
- Time is a clock in whole seconds that the caller passes in, read once per call. `Instant` and `thread::sleep` become "the clock after waiting", which `prepare` returns.
- `Uuid::new_v4` is replaced by a counter, so distinct ids are proved from the counter rather than being random.
- `char::is_alphabetic`, `to_uppercase` and `to_lowercase` are modelled for ASCII letters only. The multi-character Unicode mappings are not modelled.
- The wiki answers with `HashMap`s of pages, here treated as sequences in whatever order they arrive. Both lookups are specified for any order.
- Messages.GetUnreadAll: the unlimited `get_unread` loop may never end in the source. The model takes a fuel bound, and returns `None` when the fuel runs out before an empty page.
- The login request itself (basic auth, the password grant form) is not modelled. It is the login reply function.
- src/reddit/reply.rs, src/main.rs and src/secrets.rs are not part of this model.
- ImageUrls.MakeRequest: the source panics when an OK reply has an existing, valid image record without a title or without image info. The model states that condition as a precondition (`ReplyWellFormed`). `ImageUrls.RequestOf` maps a reply that breaks it to `Err(RequestError)` only so that it is a total function value; `Get` requires every reply to be well formed, so that fallback is never reached from `Get`.
- `impl From<reqwest::Error>` is modelled as the single errors `WikiError.RequestError` and `RedditError.OtherError`. The `?` conversions are not modelled apart from that.
- PartialPages.SelectImage: the branch that would pick a candidate containing the page title cannot fire, because it runs only after a picture has been selected. The method keeps it, but `ChooseImage` has no title parameter.
- `assert!` of a username made only of username characters (src/friend.rs:134-135) becomes the precondition `IsUsername(target)`. The assert of at most `MAX_TITLES` friends per request (src/page/partial_page.rs:44) becomes the precondition of `MakeRequest`.
