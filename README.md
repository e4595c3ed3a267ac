# Atheme contrib modules: YouTube announcer, login enforcement, SETROLE

This project models the core of three modules for the Atheme IRC services
daemon and proves properties of that model in Dafny.

- **bs_youtube** (ChanServ bot): when a registered channel sees a message
  holding a YouTube link, the module extracts the 11-character video id and
  fetches the video's metadata from the YouTube Data API. It then announces
  the title, the uploader and the view count in the channel, or sends the
  speaker a notice explaining what went wrong.
  - The response buffer that libcurl fills through `write_callback` is a class
    over an array (`YoutubeBuffer.Memory`).
  - The link matcher, the id cleanup, the JSON classification and the
    formatting are pure functions (`Youtube`).
  - Their properties are proved in `YoutubeProofs`, with two worked example
    messages in `YoutubeExamples`.
- **ns_login** (NickServ): when a session identifies, it is told to take the
  account's registered nick if it holds another one. Every other session
  logged in to the account (a "ghost") is noticed, quit and deleted. On
  logout the session is forced to a random guest nickname. The services
  registry is a class (`NsLogin.Services`). Its maps are the live sessions,
  their accounts, each account's login list and the nick records. It also
  keeps an event log of what is sent to the network.
- **ns_setrole** (NickServ): IRC operators set an account's "network role"
  with `SETROLE <account> <role>`, and INFO shows it as "Oper rank". The
  guard chain is a pure function (`NsSetRole.Decide`). The accounts and the
  replies sent live in a class (`NsSetRole.Registry`).

Shared C-library behaviour lives in `CStrings`:
- `snprintf` truncation;
- `%s` stopping at a NUL;
- `%u`;
- ASCII case folding for `strcasecmp`.

`Options` gives the optional value that stands for a pointer that may be NULL.

Characters stand for C bytes. Host primitives are modelled as maps plus an
output log. These include `notice`, `msg`, `fnc_sts`, `quit_sts`,
`user_delete`, `user_find_named`, `mynick_find`, `myuser_find`,
`metadata_add` and `metadata_find`. Randomness, the HTTP transfer and the
JSON parser's result are inputs, and so is the outcome of `has_priv`.

## Model

| member | source | states |
|---|---|---|
| CStrings.Snprintf | ns_login.c:20 | the buffer holds at most `size - 1` characters, is a prefix of the formatted text, and is all of it when it fits |
| CStrings.CStr | bs_youtube.c:91-95 | `%s` reads the longest NUL-free prefix of its argument |
| CStrings.CStrStopsAtNul | bs_youtube.c:119 | a C string ends at its first NUL: the text after it is never read |
| CStrings.Utoa | ns_login.c:20 | `%u` prints at least one digit, only digits, and no leading zero except for 0 itself |
| CStrings.DecimalRoundTrip | ns_login.c:20 | reading back the digits `%u` printed gives the number |
| CStrings.UtoaLength | ns_login.c:20 | a number below 10^d prints in at most d digits |
| CStrings.FoldIdempotent | ns_login.c:44 | folding a folded text changes nothing more |
| CStrings.FoldLowersCapitals | ns_login.c:44 | no ASCII capital survives folding; a capital moves up by 32, and every other character is kept |
| CStrings.StrCaseEqByChars | ns_login.c:44 | `strcasecmp` reports equality iff the lengths agree and every pair of characters folds to the same character |
| YoutubeBuffer.Memory.WriteCallback | bs_youtube.c:26-41 | on success the buffer holds the old contents followed by exactly the new `size*nmemb` bytes, the size grows by that count, a NUL follows, and the count is returned; on allocation failure 0 is returned and the buffer is unchanged |
| YoutubeBuffer.Grow | bs_youtube.c:31-38 | the grown block holds the old bytes, then the new chunk, then a NUL, and is freshly allocated |
| YoutubeBuffer.ReceiveChunks | bs_youtube.c:49-67 | a transfer delivered in chunks leaves exactly their concatenation in the buffer, NUL-terminated |
| Youtube.SearchFrom | bs_youtube.c:119 | the search reports the match at the leftmost position where the pattern matches, and nothing only when it matches nowhere |
| Youtube.MatchAt | bs_youtube.c:116 | whatever the pattern captures at a position is 11 characters of `[A-Za-z0-9_-]`; which positions match is `YoutubeProofs.MatchAtMeansLink` |
| Youtube.CleanId | bs_youtube.c:124-127 | the cleaned id is a prefix of the capture with no `&` or `?`, cut exactly at the first of them |
| Youtube.ExtractVideoId | bs_youtube.c:119-127 | an id is passed on iff the search over the message read as a C string matched, and it is a prefix of the captured id holding no `&` or `?` |
| Youtube.ArrayGet | bs_youtube.c:81-82 | `json_array_get` gives a value iff the index is below `json_array_size`, and then the element at that index |
| Youtube.LookupsPropagateNull | bs_youtube.c:81-86 | a lookup in a failed lookup fails again, so the unchecked chain `items[0].<section>.<field>` yields a value only when the array, its element, the section and the field all exist |
| Youtube.Rendered | bs_youtube.c:91-95 | what `%s` prints for a field holds no NUL: a prefix of the string's text, or `(null)` when the field is not a string |
| Youtube.Classify | bs_youtube.c:77-99 | "no items" iff `items` is missing, not an array or empty; "incomplete" iff items exist but one of `snippet.title`, `snippet.channelTitle`, `statistics.viewCount` is absent; otherwise the three present values are returned, whatever their JSON type |
| Youtube.ApiUrl | bs_youtube.c:51-54 | the request URL is a prefix of the full URL with the id; it is the whole URL when that is under 512 characters and exactly 511 characters otherwise; an id of at most 400 characters is never cut |
| Youtube.Message | bs_youtube.c:89-95 | the announcement is a prefix of the logo, quoted title, uploader and view count; it is all of it when that is under 512 characters and exactly 511 characters otherwise |
| Youtube.FetchMetadata | bs_youtube.c:44-108 | a request for the API URL is issued unless the HTTP client could not be created; a channel message is sent iff the transfer, the parse and the classification all succeed, and it is the announcement; otherwise the speaker gets exactly one notice: client failure, fetch failure with libcurl's text, parse failure with the parser's text, no items, or incomplete metadata |
| Youtube.OnChannelMessage | bs_youtube.c:111-134 | nothing is requested or sent when the data or message is missing, no link is found or the channel is unregistered; otherwise the output is exactly the fetch's one line and its request, if it issued one, for the extracted id |
| YoutubeProofs.MatchAtMeansLink | bs_youtube.c:116 | the matcher reports an id at a position iff a scheme (`https://` or `http://`), an optional `www.`, a path (`youtube.com/watch?v=` or `youtu.be/`) and an 11-character id start there |
| YoutubeProofs.MatchAtSound | bs_youtube.c:116 | every reported id sits behind one of the eight admitted prefixes |
| YoutubeProofs.MatchAtComplete | bs_youtube.c:116 | every admitted link is matched, with exactly its id |
| YoutubeProofs.SchemesExclusive | bs_youtube.c:116 | the two scheme alternatives never both match at one position |
| YoutubeProofs.PathsExclusive | bs_youtube.c:116 | the two path alternatives never both match at one position |
| YoutubeProofs.HostNotAfterWww | bs_youtube.c:116 | where `www.` starts no path can start, so trying `www.` first never hides a match |
| YoutubeProofs.ExtractFindsLeftmostLink | bs_youtube.c:116-127 | the id passed on is `id` iff the leftmost admitted link in the message, read up to its first NUL, carries `id` |
| YoutubeProofs.ExtractedIdIsVideoId | bs_youtube.c:116-127 | every id passed on is 11 characters of `[A-Za-z0-9_-]` |
| YoutubeProofs.NoLinkNoId | bs_youtube.c:119 | a message whose C string holds no admitted link gives no id |
| YoutubeProofs.ExtractStopsAtNul | bs_youtube.c:119 | text after a NUL in the message never changes which id is extracted |
| YoutubeProofs.LinkStartsWithHt | bs_youtube.c:116 | every link starts with `ht` |
| YoutubeProofs.NoLinkWithoutHt | bs_youtube.c:116 | no link starts where `ht` does not |
| YoutubeProofs.CleanIdKeepsPlain | bs_youtube.c:124-127 | the cleanup leaves a string without `&` or `?` unchanged |
| YoutubeProofs.CleanIdKeepsVideoId | bs_youtube.c:124-127 | the cleanup never changes a captured id, since the id alphabet has neither character |
| YoutubeProofs.CleanIdIdempotent | bs_youtube.c:124-127 | cleaning twice is cleaning once |
| YoutubeProofs.ApiUrlOfExtractedId | bs_youtube.c:51-54 | the request URL for an extracted id is never truncated and carries the id verbatim |
| YoutubeProofs.MessageShowsFields | bs_youtube.c:88-96 | for string fields that fit, the announcement is exactly logo, quoted title, uploader and view count, and each field occurs in it |
| YoutubeExamples.LinkAfter | bs_youtube.c:116 | any text, then an admitted prefix and an id, then any text, holds a link at the end of the leading text |
| YoutubeExamples.ShortLinkExample | bs_youtube.c:116-127 | "check this https://youtu.be/dQw4w9WgXcQ?t=5 out" gives the id `dQw4w9WgXcQ` |
| YoutubeExamples.WatchLinkExample | bs_youtube.c:116-127 | "https://www.youtube.com/watch?v=ABCDEFGHIJK&t=30" gives the id `ABCDEFGHIJK` |
| YoutubeExamples.NulFirstGivesNoId | bs_youtube.c:113-119 | a message starting with a NUL gives no id whatever follows, a link included, since the C string searched is empty |
| NsLogin.Services.NickRecordIgnoresCase | ns_login.c:41 | two names equal up to case find the same nick record; a record is found iff one is filed under the folded name, and looking up the folded name finds it too |
| NsLogin.Services.NickInUseIff | ns_login.c:22 | a name is in use iff some live session's nick equals it up to case |
| NsLogin.Services.ChooseGuestNick | ns_login.c:14-24 | the loop settles on the first of the 30 candidates that no live session holds (ignoring case), or on the last candidate when all are held |
| NsLogin.Services.ApplyGuestNickname | ns_login.c:12-28 | exactly one forced rename, to the chosen guest nickname; the registry is unchanged |
| NsLogin.Services.LoginHook | ns_login.c:31-61 | nothing happens without a session or an account; otherwise the rename events when the nick record differs beyond case, then for each other session on the account, in list order, a reclaim notice and a quit; those sessions leave the registry, the login list becomes the session alone, and consistency is kept |
| NsLogin.Services.SweepGhosts | ns_login.c:51-60 | walking a snapshot of the login list removes exactly the sessions other than the identifying one from the registry and the list, and logs their notices and quits in order |
| NsLogin.Services.SweepAt | ns_login.c:52-59 | one step of the walk: a ghost is noticed, quit and deleted, and the identifying session is passed over |
| NsLogin.Services.ReclaimGhost | ns_login.c:56-58 | a reclaim notice to the ghost's nick, a quit with "Nickname reclaimed", then its deletion |
| NsLogin.Services.DeleteUser | ns_login.c:58 | `user_delete` removes the session from the registry and unlinks it from its account's login list, and nothing else changes |
| NsLogin.Services.LogoutHook | ns_login.c:64-71 | nothing happens without data or a session; otherwise a logged-out notice to the session's nick, then one forced rename to the guest choice; the registry is unchanged |
| NsLogin.GuestChoiceAt | ns_login.c:18-24 | the choice is the candidate at the first free position, or the last one when all are held |
| NsLogin.GuestChoice | ns_login.c:18-24 | the nickname settled on is always one of the candidates tried; which one is `NsLogin.GuestChoiceAt` |
| NsLogin.GuestChoiceIsFirstFree | ns_login.c:18-24 | the choice is some candidate that is free or last, with every earlier candidate held |
| NsLogin.GuestChoiceFreeWhenAnyFree | ns_login.c:18-24 | when any of the candidates is free, the nickname chosen is free |
| NsLogin.GuestChoiceAllTaken | ns_login.c:18-27 | when every candidate is held, the last one is applied anyway |
| NsLogin.CandidateFits | ns_login.c:14-20 | a candidate fits `NICKLEN` and is a prefix of the prefix-then-number text |
| NsLogin.CandidateHoldsNumber | ns_login.c:20 | with room for four digits, a candidate is the prefix followed by the decimal form of `1 + draw` |
| NsLogin.RenameOnlyOnMismatch | ns_login.c:44-48 | a forced rename to `nick` is issued iff the account's nick record is `nick` and differs from the session's nick beyond case |
| NsLogin.SweepQuitsGhosts | ns_login.c:51-60 | the sweep quits exactly the listed sessions other than the identifying one, each with "Nickname reclaimed" |
| NsLogin.SweepNoticesGhosts | ns_login.c:56 | every ghost is told, under its own nick, who reclaimed it |
| NsLogin.SweepNeverRenames | ns_login.c:51-60 | the sweep issues no rename |
| NsLogin.ListedSessions | ns_login.c:51-53 | in a consistent registry a login list has no duplicates and every listed session is live and logged in to that account |
| NsLogin.DeleteKeepsConsistent | ns_login.c:58 | deleting a session keeps the registry consistent and leaves it on no login list |
| NsLogin.SweepKeepsConsistent | ns_login.c:51-60 | removing the ghosts and leaving the identifying session alone on its list keeps the registry consistent |
| NsLogin.GhostsMembers | ns_login.c:51-55 | the ghosts are exactly the listed sessions other than the identifying one |
| NsLogin.WithoutMembers | ns_login.c:58 | unlinking keeps exactly the sessions not removed |
| NsLogin.WithoutKeepsDistinct | ns_login.c:58 | unlinking never duplicates a session |
| NsLogin.WithoutTwice | ns_login.c:51-59 | unlinking sessions one after another is unlinking them all at once |
| NsLogin.WithoutAllBut | ns_login.c:51-59 | unlinking every session but one leaves that one alone, if it was listed |
| NsLogin.WithoutGhosts | ns_login.c:51-60 | after the sweep the identifying session is alone on its login list |
| NsSetRole.Strchr | ns_setrole.c:53 | `strchr` finds a character iff it occurs before the terminator, and reports its first position |
| NsSetRole.Decide | ns_setrole.c:30-57 | an accepted verdict names an existing account, filed under the folded form of the name given, and a role holding no newline, carriage return or semicolon; which guard fires is `NsSetRole.GuardOrder` |
| NsSetRole.Store | ns_setrole.c:60 | `metadata_add` keeps the same accounts under the same keys with the same names |
| NsSetRole.Answer | ns_setrole.c:32-62 | the reply goes to the caller and is a failure iff the verdict is a rejection, carrying the same fault |
| NsSetRole.RoleAllowedIff | ns_setrole.c:53-57 | the three `strchr` tests accept a role iff it holds no newline, carriage return or semicolon |
| NsSetRole.GuardOrder | ns_setrole.c:30-57 | each fault is reported iff every earlier guard passed and its own failed: no privilege first, then fewer than two arguments, then an unknown account, then a bad role |
| NsSetRole.AcceptedIff | ns_setrole.c:30-60 | SETROLE is accepted iff the caller has the privilege, both arguments are given, the account exists and the role is clean; it stores the role under that account |
| NsSetRole.RejectedChangesNothing | ns_setrole.c:30-57 | a rejected SETROLE leaves every account unchanged |
| NsSetRole.AcceptedWritesOnlyRole | ns_setrole.c:60 | an accepted SETROLE changes only the role entry of the target account; every other account and every other key are unchanged |
| NsSetRole.SetRoleThenInfo | ns_setrole.c:14-25 | after an accepted SETROLE, INFO on that account shows "Oper rank" with the role just set |
| NsSetRole.InfoIff | ns_setrole.c:16-24 | INFO adds at most one line, and adds it iff the request, the account and the requester are present and the role key exists; the line shows the stored value |
| NsSetRole.SetRoleKeepsWellKeyed | ns_setrole.c:45-60 | SETROLE keeps every account filed under its own folded name |
| NsSetRole.SetRoleKeepsRolesClean | ns_setrole.c:53-60 | SETROLE never stores a role holding a newline, a carriage return or a semicolon |
| NsSetRole.Registry.SetRole | ns_setrole.c:28-63 | the guards run in order; the accounts become the verdict's store and exactly one reply is sent, the fault or the confirmation naming role and account |
| NsSetRole.Registry.UserInfo | ns_setrole.c:14-25 | the INFO hook sends the lines `InfoReplies` gives and changes no account |

### Behaviour of the code worth knowing

- `on_channel_message` runs the link pattern on the raw message, up to its
  first NUL. No display-formatting control bytes are stripped first.
- The HTTP lookup sets no transfer timeout. A transfer is an outcome given
  as input.
- When all 30 guest candidates are held by live sessions, the last one is
  applied anyway (`NsLogin.GuestChoiceAllTaken`). The nickname applied is
  free whenever some candidate is (`NsLogin.GuestChoiceFreeWhenAnyFree`).
- The three JSON fields are checked for presence only. A present field that
  is not a string prints as `(null)`, glibc's rendering of a NULL `%s`.

## Left out

- The network side of bs_youtube is left out: libcurl handle set-up, the transfer itself, and `curl_easy_strerror`. A transfer is an input (`Youtube.Transfer`) carrying the failure text or the parsed body.
- jansson's parser is left out. A parsed document is a `Json` value or a parse error with its text.
- jansson's handling of duplicate object keys and of number formats is not modelled.
- The `std::regex` engine is left out. The one fixed pattern is a direct matcher, proved to agree with a reference reading of the pattern.
- `mod_init`/`mod_deinit` of all three modules are plumbing and are left out: hook and command registration, and the `SETROLE` command record with its `maxparc` of 2.
- Logging is left out: `logcommand` and the log text of `user_delete`'s reason.
- account_notify.c is not part of this model. It is an HTTP POST wrapper with logging on account deletion.
- The host's RFC 1459 case mapping is not modelled. Nick and account lookups fold ASCII letters only (`CStrings.Fold`).
- The size limit of the host's notice and reply buffers is not modelled. Lines are whole strings.
- Translation of messages (`_()`) is not modelled. The English text is used.
- YoutubeBuffer.Memory.WriteCallback: does not model `size_t` overflow of `size * nmemb` or of `size + realsize + 1`. Sizes are unbounded naturals.
- YoutubeBuffer.Memory.WriteCallback: `realloc` is a fresh array with the old contents copied in. Whether it succeeds is an input, so aliasing of the old block is not modelled.
- NsLogin.Services.SweepGhosts: walks a snapshot of the login list. Whether deleting entries while `MOWGLI_ITER_FOREACH` walks the live list is memory-safe cannot be judged from the module's text.
- NsLogin.Services.ApplyGuestNickname: `atheme_random_uniform` is replaced by the 30 draws, given as a parameter. The bound 9999 on each draw is a precondition only where a lemma needs it (`NsLogin.CandidateHoldsNumber`).
- NsLogin.Services.LoginHook: a forced rename (`fnc_sts`) is an event only. The session's nick changes later, when the server confirms, which is outside this module.
- NsLogin.Services.LoginHook: the notices' sender (`nicksvs.nick`) is not recorded in the events. Nor is the `FNC_FORCE` flag.
- NsSetRole.Registry.SetRole: `has_priv` is an input flag. The operator privilege system is not modelled.
- NsSetRole.Registry.SetRole: the arguments are the parameter vector the dispatcher built. How the dispatcher splits the command line is not modelled.
- Youtube.OnChannelMessage: `mychan_from` is an input (the registered channel's name, or none). The ChanServ bot's nick as sender is not recorded.
