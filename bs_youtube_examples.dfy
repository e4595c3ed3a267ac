/** Two worked examples of the link extraction of bs_youtube.c. */
module YoutubeExamples {

  import opened Options
  import opened CStrings
  import opened Youtube
  import opened YoutubeProofs

  /** `lit` at `i` in `t` is still there, shifted, once `a` is put in front. */
  lemma LitShift(a: string, t: string, i: nat, lit: string)
    requires LitAt(t, i, lit)
    ensures LitAt(a + t, |a| + i, lit)
  {
    assert (a + t)[|a| + i..|a| + i + |lit|] == t[i..i + |lit|];
  }

  lemma LitFront(lit: string, rest: string)
    ensures LitAt(lit + rest, 0, lit)
  {
    assert (lit + rest)[..|lit|] == lit;
  }

  /** A link prefix and an id in a row, after `pre`, make a link at `|pre|`. */
  lemma LinkAfter(pre: string, c: nat, w: nat, b: nat, id: string, post: string)
    requires c < 2 && w < 2 && b < 2 && IsVideoId(id)
    ensures LinkAt(pre + (LinkPrefix(c, w, b) + (id + post)), |pre|, id)
  {
    var prefix := LinkPrefix(c, w, b);
    LitFront(prefix, id + post);
    LitFront(id, post);
    LitShift(prefix, id + post, 0, id);
    LitShift(pre, prefix + (id + post), 0, prefix);
    LitShift(pre, prefix + (id + post), |prefix|, id);
  }

  /** Text built from NUL-free pieces around a link prefix and an id is read whole as a C string. */
  lemma PlainLinkText(pre: string, c: nat, w: nat, b: nat, id: string, post: string)
    requires NUL !in pre && NUL !in post && IsVideoId(id)
    ensures CStr(pre + (LinkPrefix(c, w, b) + (id + post))) == pre + (LinkPrefix(c, w, b) + (id + post))
  {
    assert NUL !in SchemeFor(c) && NUL !in WwwFor(w) && NUL !in PathFor(b);
    assert NUL !in id by {
      forall k | 0 <= k < |id| ensures id[k] != NUL {
        assert IsIdChar(id[k]);
      }
    }
    CStrOfPlainText(pre + (LinkPrefix(c, w, b) + (id + post)));
  }

  const ShortPre := "check this "
  const ShortId := "dQw4w9WgXcQ"
  /** "check this https://youtu.be/dQw4w9WgXcQ?t=5 out" */
  const ShortExample := ShortPre + (LinkPrefix(0, 1, 1) + (ShortId + "?t=5 out"))

  lemma ShortExampleNoEarlierHt(j: nat)
    requires j < |ShortPre|
    ensures !(ShortExample[j] == 'h' && ShortExample[j + 1] == 't')
  {
    assert ShortExample[j] == ShortPre[j];
    if j + 1 < |ShortPre| {
      assert ShortExample[j + 1] == ShortPre[j + 1];
    } else {
      assert ShortExample[j + 1] == LinkPrefix(0, 1, 1)[0];
    }
  }

  /** A short link inside a sentence: the `?t=5` after the 11-character id is never captured. */
  lemma ShortLinkExample()
    ensures ExtractVideoId(ShortExample) == Some(ShortId)
  {
    assert IsVideoId(ShortId) by {
      assert forall k :: 0 <= k < |ShortId| ==> IsIdChar(ShortId[k]);
    }
    LinkAfter(ShortPre, 0, 1, 1, ShortId, "?t=5 out");
    forall j, other | 0 <= j < |ShortPre| ensures !LinkAt(ShortExample, j, other) {
      ShortExampleNoEarlierHt(j);
      NoLinkWithoutHt(ShortExample, j, other);
    }
    PlainLinkText(ShortPre, 0, 1, 1, ShortId, "?t=5 out");
    ExtractFindsLeftmostLink(ShortExample, ShortId);
  }

  const WatchId := "ABCDEFGHIJK"
  /**
   * "https://www.youtube.com/watch?v=ABCDEFGHIJK&t=30"; written with an empty
   * leading text so that it has the shape `LinkAfter` speaks about.
   */
  const WatchExample := "" + (LinkPrefix(0, 0, 0) + (WatchId + "&t=30"))

  /** A watch link: the `&t=30` after the 11-character id is never captured. */
  lemma WatchLinkExample()
    ensures ExtractVideoId(WatchExample) == Some(WatchId)
  {
    assert IsVideoId(WatchId) by {
      assert forall k :: 0 <= k < |WatchId| ==> IsIdChar(WatchId[k]);
    }
    LinkAfter("", 0, 0, 0, WatchId, "&t=30");
    PlainLinkText("", 0, 0, 0, WatchId, "&t=30");
    ExtractFindsLeftmostLink(WatchExample, WatchId);
  }

  /**
   * A message that starts with a NUL gives no id, whatever follows it (the
   * watch link of `WatchExample`, say): the C string searched is empty.
   */
  lemma NulFirstGivesNoId(rest: string)
    ensures ExtractVideoId([NUL] + rest) == None
  {
    assert CStr([NUL] + rest) == [];
    assert MatchAt([], 0) == None;
  }
}
