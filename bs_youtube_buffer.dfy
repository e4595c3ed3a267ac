/**
 * The growable response buffer libcurl fills through `write_callback`
 * (`struct memory` in bs_youtube.c). `realloc` is modelled as allocating a
 * new array and copying the old contents into it; whether the allocation
 * succeeds is an input.
 */
module YoutubeBuffer {

  import opened CStrings

  class Memory {
    /** `mem->response`: NULL until the first chunk arrives. */
    var response: array?<char>
    /** `mem->size`: the number of bytes received so far. */
    var size: nat

    /** The buffer always holds exactly the received bytes and a NUL after them. */
    ghost predicate Valid()
      reads this
    {
      (response == null ==> size == 0) &&
      (response != null ==> response.Length == size + 1)
    }

    ghost predicate Terminated()
      reads this, response
      requires Valid()
    {
      response != null ==> response[size] == NUL
    }

    /** The bytes received so far. */
    ghost function Contents(): seq<char>
      reads this, response
      requires Valid()
    {
      if response == null then [] else response[..size]
    }

    /** `struct memory chunk = {0};` */
    constructor ()
      ensures Valid() && Terminated()
      ensures response == null && Contents() == []
    {
      response := null;
      size := 0;
    }

    /**
     * `write_callback(contents, itemSize, nmemb, mem)`: append the
     * `itemSize * nmemb` bytes at `contents` and keep the buffer NUL-terminated;
     * on allocation failure return 0 and leave the buffer as it was.
     */
    method WriteCallback(contents: seq<char>, itemSize: nat, nmemb: nat, reallocSucceeds: bool) returns (written: nat)
      requires Valid() && Terminated()
      requires |contents| == itemSize * nmemb
      modifies this
      ensures Valid() && Terminated()
      ensures reallocSucceeds ==> written == itemSize * nmemb
      ensures reallocSucceeds ==> size == old(size) + written && fresh(response)
      ensures reallocSucceeds ==> Contents() == old(Contents()) + contents
      ensures !reallocSucceeds ==> written == 0
      ensures !reallocSucceeds ==> response == old(response) && size == old(size) && Contents() == old(Contents())
    {
      var realsize := itemSize * nmemb;
      if !reallocSucceeds {
        return 0;
      }
      var grown := Grow(response, size, contents);
      response := grown;
      size := size + realsize;
      assert Contents() == grown[..size];
      return realsize;
    }
  }

  /**
   * `realloc` to `size + |contents| + 1` bytes, the `memcpy` of `contents`
   * after the `size` bytes kept, and the terminating NUL.
   */
  method Grow(previous: array?<char>, size: nat, contents: seq<char>) returns (grown: array<char>)
    requires previous == null ==> size == 0
    requires previous != null ==> previous.Length == size + 1
    ensures fresh(grown)
    ensures grown[..] == (if previous == null then [] else previous[..size]) + contents + [NUL]
  {
    grown := new char[size + |contents| + 1];
    var i := 0;
    while i < size
      invariant 0 <= i <= size
      invariant forall k :: 0 <= k < i ==> grown[k] == previous[k]
    {
      grown[i] := previous[i];
      i := i + 1;
    }
    var j := 0;
    while j < |contents|
      invariant 0 <= j <= |contents|
      invariant forall k :: 0 <= k < size ==> grown[k] == previous[k]
      invariant forall k :: 0 <= k < j ==> grown[size + k] == contents[k]
    {
      grown[size + j] := contents[j];
      j := j + 1;
    }
    grown[size + |contents|] := NUL;
  }

  /** A transfer delivered in chunks ends with the concatenation of the chunks in the buffer. */
  method ReceiveChunks(chunks: seq<seq<char>>) returns (m: Memory, body: seq<char>)
    ensures fresh(m) && m.Valid() && m.Terminated()
    ensures m.Contents() == body
    ensures body == Concat(chunks)
  {
    m := new Memory();
    var i := 0;
    body := [];
    while i < |chunks|
      invariant 0 <= i <= |chunks|
      invariant fresh(m) && m.Valid() && m.Terminated()
      invariant body == Concat(chunks[..i])
      invariant m.Contents() == body
    {
      var chunk := chunks[i];
      assert |chunk| == 1 * |chunk|;
      var n := m.WriteCallback(chunk, 1, |chunk|, true);
      // libcurl goes on only when the callback accepts the whole chunk.
      assert n == |chunk|;
      ConcatStep(chunks, i);
      body := body + chunk;
      i := i + 1;
    }
    assert chunks[..|chunks|] == chunks;
  }

  function Concat(chunks: seq<seq<char>>): (r: seq<char>)
  {
    if chunks == [] then [] else Concat(chunks[..|chunks| - 1]) + chunks[|chunks| - 1]
  }

  lemma ConcatStep(chunks: seq<seq<char>>, i: nat)
    requires i < |chunks|
    ensures Concat(chunks[..i + 1]) == Concat(chunks[..i]) + chunks[i]
  {
    assert chunks[..i + 1] == chunks[..i] + [chunks[i]];
    ConcatAppend(chunks[..i], chunks[i]);
  }

  lemma ConcatAppend(chunks: seq<seq<char>>, c: seq<char>)
    ensures Concat(chunks + [c]) == Concat(chunks) + c
  {
    assert (chunks + [c])[..|chunks|] == chunks;
  }
}
