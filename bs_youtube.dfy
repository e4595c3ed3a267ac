/**
 * bs_youtube.c: when a channel message carries a YouTube link, look the video
 * up through the YouTube Data API and announce its title, uploader and view
 * count in the channel. Everything here is a pure function of its inputs: the
 * HTTP transfer and the JSON parser are inputs (`Transfer`), the output is the
 * list of requests issued and of lines sent.
 */
module Youtube {

  import opened Options
  import opened CStrings

  // ---------------------------------------------------------------------------
  // Link extraction: the regular expression
  //   https?://(?:www\.)?(?:youtube\.com/watch\?v=|youtu\.be/)([A-Za-z0-9_-]{11})
  // searched for with std::regex_search (leftmost match), written out as a matcher.
  // ---------------------------------------------------------------------------

  const IdLength: nat := 11
  const SecureScheme := "https://"
  const PlainScheme := "http://"
  const Www := "www."
  const WatchPath := "youtube.com/watch?v="
  const ShortPath := "youtu.be/"

  predicate IsIdChar(c: char)
  {
    'A' <= c <= 'Z' || 'a' <= c <= 'z' || '0' <= c <= '9' || c == '_' || c == '-'
  }

  /** The shape of the regular expression's capture group: 11 characters of [A-Za-z0-9_-]. */
  predicate IsVideoId(id: string)
  {
    |id| == IdLength && forall k :: 0 <= k < |id| ==> IsIdChar(id[k])
  }

  /** `lit` occurs in `s` starting at `j`. */
  predicate LitAt(s: string, j: nat, lit: string)
  {
    j + |lit| <= |s| && s[j..j + |lit|] == lit
  }

  /** Regular-expression alternation: the first alternative that matches wins. */
  function Or(a: Option<string>, b: Option<string>): Option<string>
  {
    if a.Some? then a else b
  }

  /** `([A-Za-z0-9_-]{11})` at `k`. */
  function IdAt(s: string, k: nat): (r: Option<string>)
    ensures r.Some? <==> k + IdLength <= |s| && IsVideoId(s[k..k + IdLength])
    ensures r.Some? ==> r.value == s[k..k + IdLength]
  {
    if k + IdLength <= |s| && IsVideoId(s[k..k + IdLength]) then Some(s[k..k + IdLength]) else None
  }

  function IdAfter(s: string, j: nat, lit: string): Option<string>
  {
    if LitAt(s, j, lit) then IdAt(s, j + |lit|) else None
  }

  /** `(?:youtube\.com/watch\?v=|youtu\.be/)` followed by the id. */
  function HostThenId(s: string, j: nat): Option<string>
  {
    Or(IdAfter(s, j, WatchPath), IdAfter(s, j, ShortPath))
  }

  /** `(?:www\.)?` (greedy: with the `www.` first, then without) followed by the rest. */
  function WwwThenHost(s: string, j: nat): Option<string>
  {
    Or(if LitAt(s, j, Www) then HostThenId(s, j + |Www|) else None, HostThenId(s, j))
  }

  /** The whole pattern anchored at `i`; `s?` is greedy, so `https://` is tried first. */
  function MatchAt(s: string, i: nat): (r: Option<string>)
    ensures r.Some? ==> IsVideoId(r.value)
  {
    Or(if LitAt(s, i, SecureScheme) then WwwThenHost(s, i + |SecureScheme|) else None,
       if LitAt(s, i, PlainScheme) then WwwThenHost(s, i + |PlainScheme|) else None)
  }

  /** The choices the pattern leaves open: the scheme, an optional `www.`, and the path. */
  function SchemeFor(b: nat): string { if b == 0 then SecureScheme else PlainScheme }
  function WwwFor(b: nat): string { if b == 0 then Www else "" }
  function PathFor(b: nat): string { if b == 0 then WatchPath else ShortPath }

  /** The link prefix with scheme `c`, `www.` choice `w` and path `b` (each 0 or 1): eight in all. */
  function LinkPrefix(c: nat, w: nat, b: nat): string
  {
    SchemeFor(c) + WwwFor(w) + PathFor(b)
  }

  /** A reference reading of the pattern: one of the eight prefixes, then the id, starting at `i`. */
  predicate LinkAt(s: string, i: nat, id: string)
  {
    IsVideoId(id) &&
    exists c, w, b :: c < 2 && w < 2 && b < 2 && LitAt(s, i, LinkPrefix(c, w, b)) && LitAt(s, i + |LinkPrefix(c, w, b)|, id)
  }

  /** `std::regex_search` from position `i` on: the match that starts leftmost. */
  function SearchFrom(s: string, i: nat): (r: Option<string>)
    ensures r.Some? ==> exists k :: i <= k <= |s| && MatchAt(s, k) == r && forall j :: i <= j < k ==> MatchAt(s, j).None?
    ensures r.None? ==> forall k :: i <= k <= |s| ==> MatchAt(s, k).None?
    decreases |s| - i
  {
    if i > |s| then None
    else if MatchAt(s, i).Some? then MatchAt(s, i)
    else SearchFrom(s, i + 1)
  }

  function RegexSearch(s: string): Option<string>
  {
    SearchFrom(s, 0)
  }

  /**
   * `video_id.substr(0, video_id.find_first_of("&?"))`: cut the id at its
   * first `&` or `?`, if any.
   */
  function CleanId(id: string): (r: string)
    ensures r <= id
    ensures '&' !in r && '?' !in r
    ensures |r| < |id| ==> id[|r|] == '&' || id[|r|] == '?'
  {
    if id == [] then []
    else if id[0] == '&' || id[0] == '?' then []
    else [id[0]] + CleanId(id[1..])
  }

  /** The id `on_channel_message` passes on, or None when the message holds no link. */
  function ExtractVideoId(msg: string): (r: Option<string>)
    ensures r.Some? <==> RegexSearch(CStr(msg)).Some?
    ensures r.Some? ==> r.value <= RegexSearch(CStr(msg)).value && '&' !in r.value && '?' !in r.value
  {
    match RegexSearch(CStr(msg))
    case None => None
    case Some(captured) => Some(CleanId(captured))
  }

  // ---------------------------------------------------------------------------
  // The fetched JSON document and its classification.
  // ---------------------------------------------------------------------------

  /** A JSON value as jansson holds it; objects keep the last value of a repeated key. */
  datatype Json =
    | JNull
    | JBool(b: bool)
    | JInteger(i: int)
    | JReal(literal: string)
    | JString(text: string)
    | JArray(elems: seq<Json>)
    | JObject(fields: map<string, Json>)

  /** `json_object_get`: NULL for a NULL or non-object argument and for a missing key. */
  function ObjectGet(j: Option<Json>, key: string): (r: Option<Json>)
    ensures j.None? ==> r.None?
    ensures r.Some? ==> j.value.JObject? && key in j.value.fields && r.value == j.value.fields[key]
    ensures j.Some? && j.value.JObject? && key in j.value.fields ==> r.Some?
  {
    if j.Some? && j.value.JObject? && key in j.value.fields then Some(j.value.fields[key]) else None
  }

  /** `json_array_size`: 0 for a NULL or non-array argument. */
  function ArraySize(j: Option<Json>): (n: nat)
    ensures j.None? ==> n == 0
    ensures n > 0 ==> j.value.JArray? && n == |j.value.elems|
    ensures j.Some? && j.value.JArray? ==> n == |j.value.elems|
  {
    if j.Some? && j.value.JArray? then |j.value.elems| else 0
  }

  /** `json_array_get`: NULL for a NULL or non-array argument and out of range. */
  function ArrayGet(j: Option<Json>, index: nat): (r: Option<Json>)
    ensures r.Some? <==> index < ArraySize(j)
    ensures r.Some? ==> r.value == j.value.elems[index]
  {
    if j.Some? && j.value.JArray? && index < |j.value.elems| then Some(j.value.elems[index]) else None
  }

  /** `json_string_value`: NULL unless the value is a string. */
  function StringValue(j: Json): (r: Option<string>)
    ensures r.Some? <==> j.JString?
    ensures r.Some? ==> r.value == j.text
  {
    if j.JString? then Some(j.text) else None
  }

  /**
   * jansson's accessors pass NULL along: a lookup in the result of a failed
   * lookup fails again, so a chain of them without checks in between yields a
   * value only when every step found one.
   */
  lemma LookupsPropagateNull(j: Option<Json>, index: nat, a: string, b: string)
    ensures ObjectGet(ObjectGet(j, a), b).Some? ==> ObjectGet(j, a).Some? && ObjectGet(j, a).value.JObject?
    ensures ObjectGet(ArrayGet(j, index), a).Some? ==> ArrayGet(j, index).Some? && index < ArraySize(j)
    ensures ObjectGet(ObjectGet(ArrayGet(j, index), a), b).Some? ==>
              j.Some? && j.value.JArray? && index < |j.value.elems| &&
              j.value.elems[index].JObject? && a in j.value.elems[index].fields &&
              j.value.elems[index].fields[a].JObject? && b in j.value.elems[index].fields[a].fields
  {
  }

  /** The outcome of checking the document: the three fields are only checked for presence. */
  datatype Verdict = NoItems | Incomplete | Complete(title: Json, channelTitle: Json, viewCount: Json)

  /** The document has an `items` array with at least one element. */
  predicate HasItems(root: Json)
  {
    root.JObject? && "items" in root.fields && root.fields["items"].JArray? && root.fields["items"].elems != []
  }

  /** Path `items[0].<section>.<field>` exists in the document. */
  predicate HasField(root: Json, section: string, field: string)
    requires HasItems(root)
  {
    var first := root.fields["items"].elems[0];
    first.JObject? && section in first.fields &&
    first.fields[section].JObject? && field in first.fields[section].fields
  }

  function Field(root: Json, section: string, field: string): Json
    requires HasItems(root) && HasField(root, section, field)
  {
    root.fields["items"].elems[0].fields[section].fields[field]
  }

  /** The checks of `fetch_youtube_metadata` after `json_loads` succeeded. */
  function Classify(root: Json): (r: Verdict)
    ensures r == NoItems <==> !HasItems(root)
    ensures r == Incomplete <==>
      HasItems(root) &&
      !(HasField(root, "snippet", "title") && HasField(root, "snippet", "channelTitle") && HasField(root, "statistics", "viewCount"))
    ensures r.Complete? ==>
      HasItems(root) &&
      HasField(root, "snippet", "title") && HasField(root, "snippet", "channelTitle") && HasField(root, "statistics", "viewCount") &&
      r.title == Field(root, "snippet", "title") &&
      r.channelTitle == Field(root, "snippet", "channelTitle") &&
      r.viewCount == Field(root, "statistics", "viewCount")
  {
    var items := ObjectGet(Some(root), "items");
    if items.None? || ArraySize(items) == 0 then NoItems
    else
      var first := ArrayGet(items, 0);
      var snippet := ObjectGet(first, "snippet");
      var statistics := ObjectGet(first, "statistics");
      var title := ObjectGet(snippet, "title");
      var channelTitle := ObjectGet(snippet, "channelTitle");
      var viewCount := ObjectGet(statistics, "viewCount");
      if title.Some? && channelTitle.Some? && viewCount.Some? then
        Complete(title.value, channelTitle.value, viewCount.value)
      else Incomplete
  }

  // ---------------------------------------------------------------------------
  // Formatting.
  // ---------------------------------------------------------------------------

  /** Size of the `api_url` and `message` buffers. */
  const BufferSize: nat := 512
  const ApiKey := "YOUR_YOUTUBE_API"
  const ApiBase := "https://www.googleapis.com/youtube/v3/videos?id="
  const ApiTail := "&part=snippet,statistics"

  const Colour: char := 3 as char
  const Plain: char := 15 as char
  /** The mIRC-coloured "YouTube" logo that starts every announcement. */
  const Logo: string := [Bold, Colour] + "01,00You" + [Colour] + "00,04Tube" + [Plain, Bold]

  /** `api_url` as `snprintf` leaves it. */
  function ApiUrl(videoId: string): (url: string)
    ensures |url| < BufferSize
    ensures url <= ApiBase + videoId + "&key=" + ApiKey + ApiTail
    ensures |ApiBase + videoId + "&key=" + ApiKey + ApiTail| < BufferSize ==> url == ApiBase + videoId + "&key=" + ApiKey + ApiTail
    ensures |ApiBase + videoId + "&key=" + ApiKey + ApiTail| >= BufferSize ==> |url| == BufferSize - 1
    ensures |videoId| <= 400 ==> url == ApiBase + videoId + "&key=" + ApiKey + ApiTail
  {
    Snprintf(ApiBase + videoId + "&key=" + ApiKey + ApiTail, BufferSize)
  }

  /** What `%s` prints for `json_string_value(j)`; glibc prints "(null)" for a NULL argument. */
  function Rendered(j: Json): (r: string)
    ensures NUL !in r
    ensures StringValue(j).Some? ==> r <= StringValue(j).value
    ensures StringValue(j).None? ==> r == "(null)"
  {
    match StringValue(j)
    case Some(t) => CStr(t)
    case None => "(null)"
  }

  function Announcement(title: string, channelTitle: string, viewCount: string): string
  {
    Logo + " \"" + title + "\" by " + channelTitle + " with " + viewCount + " views."
  }

  /** `message` as `snprintf` leaves it. */
  function Message(title: Json, channelTitle: Json, viewCount: Json): (text: string)
    ensures |text| < BufferSize
    ensures text <= Announcement(Rendered(title), Rendered(channelTitle), Rendered(viewCount))
    ensures |Announcement(Rendered(title), Rendered(channelTitle), Rendered(viewCount))| < BufferSize ==>
              text == Announcement(Rendered(title), Rendered(channelTitle), Rendered(viewCount))
    ensures |Announcement(Rendered(title), Rendered(channelTitle), Rendered(viewCount))| >= BufferSize ==>
              |text| == BufferSize - 1
  {
    Snprintf(Announcement(Rendered(title), Rendered(channelTitle), Rendered(viewCount)), BufferSize)
  }

  // ---------------------------------------------------------------------------
  // The fetch and the hook.
  // ---------------------------------------------------------------------------

  /** What `json_loads` made of the received body. */
  datatype Parsed = Loaded(root: Json) | LoadError(text: string)

  /** What libcurl did: no handle, a failed transfer (with `curl_easy_strerror`), or a body. */
  datatype Transfer = ClientInitFailed | PerformFailed(reason: string) | Performed(body: Parsed)

  /** A line sent by the ChanServ bot: a private notice to a user or a message to a channel. */
  datatype Event = Notice(target: string, text: string) | Msg(target: string, text: string)

  datatype Fetch = Fetch(request: Option<string>, event: Event)

  const InitFailedNotice := "Error: Could not initialize HTTP client."
  const FetchFailedNotice := "Failed to fetch YouTube metadata: "
  const ParseFailedNotice := "Error: Failed to parse YouTube API response: "
  const NoItemsNotice := "No metadata found for the video."
  const IncompleteNotice := "Incomplete metadata found for the video."

  predicate IsSuccess(transfer: Transfer)
  {
    transfer.Performed? && transfer.body.Loaded? && Classify(transfer.body.root).Complete?
  }

  /** `fetch_youtube_metadata(videoId, mc, user)`: one request at most, exactly one line out. */
  function FetchMetadata(videoId: string, channel: string, userNick: string, transfer: Transfer): (f: Fetch)
    ensures f.request == if transfer.ClientInitFailed? then None else Some(ApiUrl(videoId))
    ensures f.event.Msg? <==> IsSuccess(transfer)
    ensures f.event.Msg? ==> f.event.target == channel
    ensures f.event.Notice? ==> f.event.target == userNick
    ensures IsSuccess(transfer) ==>
      var v := Classify(transfer.body.root);
      f.event.text == Message(v.title, v.channelTitle, v.viewCount)
    ensures transfer.ClientInitFailed? ==> f.event.text == InitFailedNotice
    ensures transfer.PerformFailed? ==> f.event.text == FetchFailedNotice + transfer.reason
    ensures transfer.Performed? && transfer.body.LoadError? ==> f.event.text == ParseFailedNotice + transfer.body.text
    ensures transfer.Performed? && transfer.body.Loaded? && !HasItems(transfer.body.root) ==> f.event.text == NoItemsNotice
    ensures transfer.Performed? && transfer.body.Loaded? && Classify(transfer.body.root) == Incomplete ==>
              f.event.text == IncompleteNotice
  {
    match transfer
    case ClientInitFailed => Fetch(None, Notice(userNick, InitFailedNotice))
    case PerformFailed(reason) => Fetch(Some(ApiUrl(videoId)), Notice(userNick, FetchFailedNotice + reason))
    case Performed(LoadError(text)) => Fetch(Some(ApiUrl(videoId)), Notice(userNick, ParseFailedNotice + text))
    case Performed(Loaded(root)) =>
      var line := match Classify(root)
        case NoItems => Notice(userNick, NoItemsNotice)
        case Incomplete => Notice(userNick, IncompleteNotice)
        case Complete(title, channelTitle, viewCount) => Msg(channel, Message(title, channelTitle, viewCount));
      Fetch(Some(ApiUrl(videoId)), line)
  }

  /** The `hook_cmessage_data_t` fields the handler reads. */
  datatype MessageData = MessageData(userNick: string, registeredChannel: Option<string>, msg: Option<string>)

  datatype HookOutput = HookOutput(requests: seq<string>, events: seq<Event>)

  /** `on_channel_message(data)`; `registeredChannel` is `mychan_from(data->c)` (its name), None when unregistered. */
  function OnChannelMessage(data: Option<MessageData>, transfer: Transfer): (out: HookOutput)
    ensures |out.requests| <= 1 && |out.events| <= 1
    ensures (data.None? || data.value.msg.None? || ExtractVideoId(data.value.msg.value).None? || data.value.registeredChannel.None?)
            ==> out == HookOutput([], [])
    ensures forall e :: e in out.events && e.Msg? ==> data.Some? && data.value.registeredChannel == Some(e.target)
    ensures forall e :: e in out.events && e.Notice? ==> data.Some? && e.target == data.value.userNick
    ensures forall u :: u in out.requests ==>
              data.Some? && data.value.msg.Some? && ExtractVideoId(data.value.msg.value).Some? &&
              u == ApiUrl(ExtractVideoId(data.value.msg.value).value)
    ensures data.Some? && data.value.msg.Some? && ExtractVideoId(data.value.msg.value).Some? && data.value.registeredChannel.Some? ==>
              var f := FetchMetadata(ExtractVideoId(data.value.msg.value).value, data.value.registeredChannel.value,
                                     data.value.userNick, transfer);
              && out.events == [f.event]
              && out.requests == (if f.request.Some? then [f.request.value] else [])
  {
    if data.None? || data.value.msg.None? then HookOutput([], [])
    else match ExtractVideoId(data.value.msg.value)
      case None => HookOutput([], [])
      case Some(videoId) =>
        match data.value.registeredChannel
        case None => HookOutput([], [])
        case Some(channel) =>
          var f := FetchMetadata(videoId, channel, data.value.userNick, transfer);
          HookOutput(if f.request.Some? then [f.request.value] else [], [f.event])
  }
}
