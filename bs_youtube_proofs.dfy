/** Properties of the link extraction and message formatting of bs_youtube.c. */
module YoutubeProofs {

  import opened Options
  import opened CStrings
  import opened Youtube

  lemma LitConcat(s: string, i: nat, a: string, b: string)
    ensures LitAt(s, i, a + b) <==> LitAt(s, i, a) && LitAt(s, i + |a|, b)
  {
    if LitAt(s, i, a) && LitAt(s, i + |a|, b) {
      assert s[i..i + |a + b|] == s[i..i + |a|] + s[i + |a|..i + |a| + |b|];
    }
    if LitAt(s, i, a + b) {
      assert s[i..i + |a|] == s[i..i + |a + b|][..|a|];
      assert s[i + |a|..i + |a| + |b|] == s[i..i + |a + b|][|a|..];
    }
  }

  lemma CharOfLit(s: string, j: nat, lit: string, d: nat)
    ensures LitAt(s, j, lit) && d < |lit| ==> s[j + d] == lit[d]
  {
    if LitAt(s, j, lit) && d < |lit| {
      assert s[j..j + |lit|][d] == s[j + d];
    }
  }

  lemma HostThenIdSound(s: string, h: nat, id: string) returns (b: nat, k: nat)
    requires HostThenId(s, h) == Some(id)
    ensures b < 2 && IsVideoId(id) && k == h + |PathFor(b)|
    ensures LitAt(s, h, PathFor(b)) && LitAt(s, k, id)
  {
    b := if IdAfter(s, h, WatchPath).Some? then 0 else 1;
    k := h + |PathFor(b)|;
    assert LitAt(s, h, PathFor(b)) && IdAt(s, k) == Some(id);
  }

  lemma WwwThenHostSound(s: string, j: nat, id: string) returns (w: nat, b: nat, h: nat, k: nat)
    requires WwwThenHost(s, j) == Some(id)
    ensures w < 2 && b < 2 && IsVideoId(id) && h == j + |WwwFor(w)| && k == h + |PathFor(b)|
    ensures LitAt(s, j, WwwFor(w)) && LitAt(s, h, PathFor(b)) && LitAt(s, k, id)
  {
    w := if LitAt(s, j, Www) && HostThenId(s, j + |Www|).Some? then 0 else 1;
    h := j + |WwwFor(w)|;
    assert LitAt(s, j, WwwFor(w)) && HostThenId(s, h) == Some(id);
    b, k := HostThenIdSound(s, h, id);
  }

  lemma Lit3(s: string, i: nat, a: string, b: string, c: string)
    ensures LitAt(s, i, a + b + c) <==> LitAt(s, i, a) && LitAt(s, i + |a|, b) && LitAt(s, i + |a| + |b|, c)
  {
    LitConcat(s, i, a, b);
    LitConcat(s, i, a + b, c);
    assert |a + b| == |a| + |b|;
  }

  /** Scheme `c`, `www.` choice `w`, path `b` and the id in a row, at `i`, `j`, `h` and `k`, make a link. */
  lemma LinkFromParts(s: string, i: nat, c: nat, w: nat, b: nat, id: string, j: nat, h: nat, k: nat)
    requires c < 2 && w < 2 && b < 2 && IsVideoId(id)
    requires j == i + |SchemeFor(c)| && h == j + |WwwFor(w)| && k == h + |PathFor(b)|
    requires LitAt(s, i, SchemeFor(c)) && LitAt(s, j, WwwFor(w)) && LitAt(s, h, PathFor(b)) && LitAt(s, k, id)
    ensures LinkAt(s, i, id)
  {
    var scheme, www, path := SchemeFor(c), WwwFor(w), PathFor(b);
    Lit3(s, i, scheme, www, path);
    assert |LinkPrefix(c, w, b)| == |scheme| + |www| + |path|;
    assert LitAt(s, i, LinkPrefix(c, w, b)) && LitAt(s, i + |LinkPrefix(c, w, b)|, id);
  }

  /** ... and every link is made that way. */
  lemma PartsFromLink(s: string, i: nat, id: string) returns (c: nat, w: nat, b: nat, j: nat, h: nat, k: nat)
    requires LinkAt(s, i, id)
    ensures c < 2 && w < 2 && b < 2 && IsVideoId(id)
    ensures j == i + |SchemeFor(c)| && h == j + |WwwFor(w)| && k == h + |PathFor(b)|
    ensures LitAt(s, i, SchemeFor(c)) && LitAt(s, j, WwwFor(w)) && LitAt(s, h, PathFor(b)) && LitAt(s, k, id)
  {
    c, w, b :| c < 2 && w < 2 && b < 2 && LitAt(s, i, LinkPrefix(c, w, b)) && LitAt(s, i + |LinkPrefix(c, w, b)|, id);
    j, h, k := SplitPrefix(s, i, c, w, b, id);
  }

  /** An admitted prefix at `i` is its scheme, its `www.` choice and its path in a row; the id follows at `k`. */
  lemma SplitPrefix(s: string, i: nat, c: nat, w: nat, b: nat, id: string) returns (j: nat, h: nat, k: nat)
    requires LitAt(s, i, LinkPrefix(c, w, b)) && LitAt(s, i + |LinkPrefix(c, w, b)|, id)
    ensures j == i + |SchemeFor(c)| && h == j + |WwwFor(w)| && k == h + |PathFor(b)|
    ensures LitAt(s, i, SchemeFor(c)) && LitAt(s, j, WwwFor(w)) && LitAt(s, h, PathFor(b)) && LitAt(s, k, id)
  {
    var scheme, www, path := SchemeFor(c), WwwFor(w), PathFor(b);
    Lit3(s, i, scheme, www, path);
    j := i + |scheme|;
    h := j + |www|;
    k := i + |LinkPrefix(c, w, b)|;
    assert |LinkPrefix(c, w, b)| == |scheme| + |www| + |path|;
  }

  lemma MatchAtScheme(s: string, i: nat, id: string) returns (c: nat)
    requires MatchAt(s, i) == Some(id)
    ensures c < 2 && LitAt(s, i, SchemeFor(c)) && WwwThenHost(s, i + |SchemeFor(c)|) == Some(id)
  {
    c := if LitAt(s, i, SecureScheme) && WwwThenHost(s, i + |SecureScheme|).Some? then 0 else 1;
  }

  /** Any id the matcher reports sits behind one of the admitted link prefixes. */
  lemma MatchAtSound(s: string, i: nat, id: string)
    requires MatchAt(s, i) == Some(id)
    ensures LinkAt(s, i, id)
  {
    var c := MatchAtScheme(s, i, id);
    SchemeThenRestSound(s, i, c, id);
  }

  lemma SchemeThenRestSound(s: string, i: nat, c: nat, id: string)
    requires c < 2 && LitAt(s, i, SchemeFor(c)) && WwwThenHost(s, i + |SchemeFor(c)|) == Some(id)
    ensures LinkAt(s, i, id)
  {
    var j := i + |SchemeFor(c)|;
    var w, b, h, k := WwwThenHostSound(s, j, id);
    LinkFromParts(s, i, c, w, b, id, j, h, k);
  }

  /** The two schemes exclude each other: they differ in their fifth character. */
  lemma SchemesExclusive(s: string, i: nat)
    ensures LitAt(s, i, SecureScheme) ==> !LitAt(s, i, PlainScheme)
  {
    CharOfLit(s, i, SecureScheme, 4);
    CharOfLit(s, i, PlainScheme, 4);
  }

  /** A path never starts where `www.` does. */
  lemma HostNotAfterWww(s: string, j: nat)
    requires LitAt(s, j, Www)
    ensures HostThenId(s, j).None?
  {
    CharOfLit(s, j, Www, 0);
    CharOfLit(s, j, WatchPath, 0);
    CharOfLit(s, j, ShortPath, 0);
  }

  /** The two paths differ in their sixth character. */
  lemma PathsExclusive(s: string, h: nat)
    ensures LitAt(s, h, WatchPath) ==> !LitAt(s, h, ShortPath)
  {
    CharOfLit(s, h, WatchPath, 5);
    CharOfLit(s, h, ShortPath, 5);
  }

  lemma HostThenIdComplete(s: string, h: nat, b: nat, id: string, k: nat)
    requires b < 2 && IsVideoId(id) && k == h + |PathFor(b)|
    requires LitAt(s, h, PathFor(b)) && LitAt(s, k, id)
    ensures HostThenId(s, h) == Some(id)
  {
    PathsExclusive(s, h);
  }

  lemma WwwThenHostComplete(s: string, j: nat, w: nat, b: nat, id: string, h: nat, k: nat)
    requires w < 2 && b < 2 && IsVideoId(id) && h == j + |WwwFor(w)| && k == h + |PathFor(b)|
    requires LitAt(s, j, WwwFor(w)) && LitAt(s, h, PathFor(b)) && LitAt(s, k, id)
    ensures WwwThenHost(s, j) == Some(id)
  {
    HostThenIdComplete(s, h, b, id, k);
    if w == 1 && LitAt(s, j, Www) {
      HostNotAfterWww(s, j);
    }
  }

  lemma SchemeThenRestComplete(s: string, i: nat, c: nat, id: string)
    requires c < 2 && LitAt(s, i, SchemeFor(c)) && WwwThenHost(s, i + |SchemeFor(c)|) == Some(id)
    ensures MatchAt(s, i) == Some(id)
  {
    SchemesExclusive(s, i);
  }

  lemma CompleteFromParts(s: string, i: nat, c: nat, w: nat, b: nat, id: string, j: nat, h: nat, k: nat)
    requires c < 2 && w < 2 && b < 2 && IsVideoId(id)
    requires j == i + |SchemeFor(c)| && h == j + |WwwFor(w)| && k == h + |PathFor(b)|
    requires LitAt(s, i, SchemeFor(c)) && LitAt(s, j, WwwFor(w)) && LitAt(s, h, PathFor(b)) && LitAt(s, k, id)
    ensures MatchAt(s, i) == Some(id)
  {
    WwwThenHostComplete(s, j, w, b, id, h, k);
    SchemeThenRestComplete(s, i, c, id);
  }

  /** Every admitted link is found, with exactly its id. */
  lemma MatchAtComplete(s: string, i: nat, id: string)
    requires LinkAt(s, i, id)
    ensures MatchAt(s, i) == Some(id)
  {
    var c, w, b, j, h, k := PartsFromLink(s, i, id);
    CompleteFromParts(s, i, c, w, b, id, j, h, k);
  }

  /** The matcher agrees with the reference reading of the pattern, in both directions. */
  lemma MatchAtMeansLink(s: string, i: nat, id: string)
    ensures MatchAt(s, i) == Some(id) <==> LinkAt(s, i, id)
  {
    if MatchAt(s, i) == Some(id) { MatchAtSound(s, i, id); }
    if LinkAt(s, i, id) { MatchAtComplete(s, i, id); }
  }

  /** Cutting at `&`/`?` leaves a string without those characters as it is. */
  lemma {:induction false} CleanIdKeepsPlain(id: string)
    requires '&' !in id && '?' !in id
    ensures CleanId(id) == id
  {
    if id != [] {
      assert id[0] in id;
      assert forall c :: c in id[1..] ==> c in id;
      CleanIdKeepsPlain(id[1..]);
    }
  }

  /** A captured id never holds `&` or `?`, so the cleanup never changes it. */
  lemma CleanIdKeepsVideoId(id: string)
    requires IsVideoId(id)
    ensures CleanId(id) == id
  {
    assert forall k :: 0 <= k < |id| ==> id[k] != '&' && id[k] != '?';
    CleanIdKeepsPlain(id);
  }

  lemma CleanIdIdempotent(id: string)
    ensures CleanId(CleanId(id)) == CleanId(id)
  {
    CleanIdKeepsPlain(CleanId(id));
  }

  /**
   * `on_channel_message` reports an id exactly when the message, read as a C
   * string, holds a link at some position, and then it is the id of the
   * leftmost link.
   */
  lemma ExtractFindsLeftmostLink(msg: string, id: string)
    ensures ExtractVideoId(msg) == Some(id) <==>
      exists i :: 0 <= i <= |CStr(msg)| && LinkAt(CStr(msg), i, id) &&
        forall j, other :: 0 <= j < i ==> !LinkAt(CStr(msg), j, other)
  {
    var text := CStr(msg);
    if ExtractVideoId(msg) == Some(id) {
      var captured := RegexSearch(text).value;
      var i :| 0 <= i <= |text| && MatchAt(text, i) == Some(captured) && forall j :: 0 <= j < i ==> MatchAt(text, j).None?;
      MatchAtSound(text, i, captured);
      CleanIdKeepsVideoId(captured);
      forall j, other | 0 <= j < i ensures !LinkAt(text, j, other) {
        if LinkAt(text, j, other) { MatchAtComplete(text, j, other); }
      }
    }
    if exists i :: 0 <= i <= |text| && LinkAt(text, i, id) && forall j, other :: 0 <= j < i ==> !LinkAt(text, j, other) {
      var i :| 0 <= i <= |text| && LinkAt(text, i, id) && forall j, other :: 0 <= j < i ==> !LinkAt(text, j, other);
      MatchAtComplete(text, i, id);
      var r := RegexSearch(text);
      assert r.Some?;
      var k :| 0 <= k <= |text| && MatchAt(text, k) == r && forall j :: 0 <= j < k ==> MatchAt(text, j).None?;
      MatchAtSound(text, k, r.value);
      assert k >= i;
      assert k == i;
      CleanIdKeepsVideoId(id);
    }
  }

  /** Every id `on_channel_message` passes on has the captured shape. */
  lemma ExtractedIdIsVideoId(msg: string)
    requires ExtractVideoId(msg).Some?
    ensures IsVideoId(ExtractVideoId(msg).value)
  {
    var text := CStr(msg);
    var captured := RegexSearch(text).value;
    var i :| 0 <= i <= |text| && MatchAt(text, i) == Some(captured);
    MatchAtSound(text, i, captured);
    CleanIdKeepsVideoId(captured);
  }

  /** A message whose C string holds no admitted link gives no id. */
  lemma NoLinkNoId(msg: string)
    requires forall i, id :: 0 <= i <= |CStr(msg)| ==> !LinkAt(CStr(msg), i, id)
    ensures ExtractVideoId(msg).None?
  {
    var text := CStr(msg);
    if RegexSearch(text).Some? {
      var captured := RegexSearch(text).value;
      var i :| 0 <= i <= |text| && MatchAt(text, i) == Some(captured);
      MatchAtSound(text, i, captured);
    }
  }

  /** `regex_search` reads `data->msg` only up to its first NUL: whatever follows it is never searched. */
  lemma ExtractStopsAtNul(msg: string, rest: string)
    requires NUL !in msg
    ensures ExtractVideoId(msg + [NUL] + rest) == ExtractVideoId(msg)
  {
    CStrStopsAtNul(msg, rest);
    CStrOfPlainText(msg);
  }

  /** Every admitted link starts with `ht`. */
  lemma LinkStartsWithHt(s: string, i: nat, id: string)
    requires LinkAt(s, i, id)
    ensures i + 1 < |s| && s[i] == 'h' && s[i + 1] == 't'
  {
    var c, w, b :| c < 2 && w < 2 && b < 2 && LitAt(s, i, LinkPrefix(c, w, b)) && LitAt(s, i + |LinkPrefix(c, w, b)|, id);
    PrefixStartsWithHt(c, w, b);
    CharOfLit(s, i, LinkPrefix(c, w, b), 0);
    CharOfLit(s, i, LinkPrefix(c, w, b), 1);
  }

  lemma PrefixStartsWithHt(c: nat, w: nat, b: nat)
    ensures |LinkPrefix(c, w, b)| >= 2 && LinkPrefix(c, w, b)[0] == 'h' && LinkPrefix(c, w, b)[1] == 't'
  {
    var scheme := SchemeFor(c);
    assert |scheme| >= 7 && scheme[0] == 'h' && scheme[1] == 't';
    assert (scheme + WwwFor(w))[0] == 'h' && (scheme + WwwFor(w))[1] == 't';
  }

  /** A link needs `ht` where it starts. */
  lemma NoLinkWithoutHt(s: string, i: nat, id: string)
    requires !(i + 1 < |s| && s[i] == 'h' && s[i + 1] == 't')
    ensures !LinkAt(s, i, id)
  {
    if LinkAt(s, i, id) {
      LinkStartsWithHt(s, i, id);
    }
  }

  /** The API request for an extracted id is never truncated and carries the id verbatim. */
  lemma ApiUrlOfExtractedId(msg: string)
    requires ExtractVideoId(msg).Some?
    ensures ApiUrl(ExtractVideoId(msg).value) == ApiBase + ExtractVideoId(msg).value + "&key=" + ApiKey + ApiTail
  {
    ExtractedIdIsVideoId(msg);
  }

  /** `needle` occurs in `hay` at some offset. */
  ghost predicate Occurs(needle: string, hay: string)
  {
    exists k: nat :: LitAt(hay, k, needle)
  }

  /**
   * When the announcement fits the 512-byte buffer and the three fields are
   * NUL-free strings, the channel sees each of them verbatim.
   */
  lemma MessageShowsFields(title: string, channelTitle: string, viewCount: string)
    requires NUL !in title && NUL !in channelTitle && NUL !in viewCount
    requires |Announcement(title, channelTitle, viewCount)| < BufferSize
    ensures Message(JString(title), JString(channelTitle), JString(viewCount)) == Announcement(title, channelTitle, viewCount)
    ensures Occurs(title, Message(JString(title), JString(channelTitle), JString(viewCount)))
    ensures Occurs(channelTitle, Message(JString(title), JString(channelTitle), JString(viewCount)))
    ensures Occurs(viewCount, Message(JString(title), JString(channelTitle), JString(viewCount)))
  {
    CStrOfPlainText(title);
    CStrOfPlainText(channelTitle);
    CStrOfPlainText(viewCount);
    var text := Announcement(title, channelTitle, viewCount);
    var t0 := |Logo| + 2;
    var c0 := t0 + |title| + 5;
    var v0 := c0 + |channelTitle| + 6;
    assert LitAt(text, t0, title);
    assert LitAt(text, c0, channelTitle);
    assert LitAt(text, v0, viewCount);
  }
}
