/** Hashtag highlighting of a note's content.

    The adapter colours every match of the fixed pattern `#([A-Za-z0-9_-]+)`,
    found left to right with `Matcher.find()`.  A match is a `#` followed by
    the longest non-empty run of tag characters; after a match the search
    resumes at the match end.  Since `#` is not a tag character, a match never
    contains another `#`, so matches cannot overlap.
 */
module Hashtag {

  /** A coloured character range [start, end) of the content. */
  datatype Span = Span(start: nat, end: nat)

  /** The character class `[A-Za-z0-9_-]`. */
  predicate IsTagChar(c: char) {
    ('A' <= c <= 'Z') || ('a' <= c <= 'z') || ('0' <= c <= '9') || c == '_' || c == '-'
  }

  /** A match of the pattern can begin at index i: `#` and one tag character. */
  predicate StartsTag(s: string, i: nat) {
    i + 1 < |s| && s[i] == '#' && IsTagChar(s[i + 1])
  }

  /** Reference definition: sp covers a `#`, at least one tag character, and
      the whole run of tag characters after it (greedy: it cannot be extended). */
  predicate IsTagSpan(s: string, sp: Span) {
    sp.start + 2 <= sp.end <= |s| && s[sp.start] == '#'
    && (forall k :: sp.start < k < sp.end ==> IsTagChar(s[k]))
    && (sp.end == |s| || !IsTagChar(s[sp.end]))
  }

  /** Spans appear in increasing order and do not overlap. */
  predicate Ordered(spans: seq<Span>) {
    forall j, k :: 0 <= j < k < |spans| ==> spans[j].end <= spans[k].start
  }

  /** End of the run of tag characters that begins at index j. */
  function RunEnd(s: string, j: nat): (e: nat)
    requires j <= |s|
    ensures j <= e <= |s|
    ensures forall k :: j <= k < e ==> IsTagChar(s[k])
    ensures e == |s| || !IsTagChar(s[e])
    decreases |s| - j
  {
    if j < |s| && IsTagChar(s[j]) then RunEnd(s, j + 1) else j
  }

  /** The matches a scan starting at index i reports, in order: a match where
      `#` and a tag character begin, resuming at its end; otherwise the scan
      moves on by one character. */
  function SpansFrom(s: string, i: nat): (r: seq<Span>)
    requires i <= |s|
    ensures 2 * |r| <= |s| - i
    decreases |s| - i
  {
    if i == |s| then []
    else if StartsTag(s, i) then
      var e := RunEnd(s, i + 1);
      [Span(i, e)] + SpansFrom(s, e)
    else SpansFrom(s, i + 1)
  }

  /** Any run of tag characters that cannot be extended ends where RunEnd says. */
  lemma RunEndUnique(s: string, j: nat, b: nat)
    requires j <= b <= |s|
    requires forall k :: j <= k < b ==> IsTagChar(s[k])
    requires b == |s| || !IsTagChar(s[b])
    ensures RunEnd(s, j) == b
  {
  }

  /** Every span a scan from i reports starts at i or later, is a greedy
      hashtag match, and the spans come in increasing, disjoint order. */
  lemma {:induction false} SpansFromSound(s: string, i: nat)
    requires i <= |s|
    ensures forall sp :: sp in SpansFrom(s, i) ==> i <= sp.start && IsTagSpan(s, sp)
    ensures Ordered(SpansFrom(s, i))
    decreases |s| - i
  {
    if i < |s| {
      if StartsTag(s, i) {
        var e := RunEnd(s, i + 1);
        SpansFromSound(s, e);
        var rest := SpansFrom(s, e);
        assert SpansFrom(s, i) == [Span(i, e)] + rest;
        forall k | 0 < k < |SpansFrom(s, i)|
          ensures SpansFrom(s, i)[k] == rest[k - 1]
        {
        }
        assert forall sp :: sp in rest ==> e <= sp.start;
        assert forall k :: 0 <= k < |rest| ==> rest[k] in rest;
      } else {
        SpansFromSound(s, i + 1);
      }
    }
  }

  /** Every greedy hashtag match at or after a scan position is reported. */
  lemma {:induction false} SpansFromComplete(s: string, i: nat, sp: Span)
    requires i <= sp.start
    requires IsTagSpan(s, sp)
    ensures sp in SpansFrom(s, i)
    decreases |s| - i
  {
    assert StartsTag(s, sp.start);
    if StartsTag(s, i) {
      var e := RunEnd(s, i + 1);
      if i == sp.start {
        RunEndUnique(s, i + 1, sp.end);
      } else {
        SpansFromComplete(s, e, sp);
      }
    } else {
      SpansFromComplete(s, i + 1, sp);
    }
  }

  /** All hashtag spans of the content, the scan from its first character:
      exactly the greedy hashtag matches, in increasing order and without
      overlap. */
  function HashtagSpans(s: string): (r: seq<Span>)
    ensures forall sp :: sp in r <==> IsTagSpan(s, sp)
    ensures Ordered(r)
  {
    SpansFromSound(s, 0);
    assert forall sp :: IsTagSpan(s, sp) ==> sp in SpansFrom(s, 0) by {
      forall sp | IsTagSpan(s, sp)
        ensures sp in SpansFrom(s, 0)
      {
        SpansFromComplete(s, 0, sp);
      }
    }
    SpansFrom(s, 0)
  }

  /** Each span's bounds, its leading `#`, its tag characters and its
      maximality, stated index by index. */
  lemma HashtagSpanBounds(s: string, k: nat)
    requires k < |HashtagSpans(s)|
    ensures var sp := HashtagSpans(s)[k];
      sp.start + 2 <= sp.end <= |s| && s[sp.start] == '#'
      && (forall i :: sp.start < i < sp.end ==> IsTagChar(s[i]))
      && (sp.end == |s| || !IsTagChar(s[sp.end]))
  {
    assert HashtagSpans(s)[k] in HashtagSpans(s);
  }

  /** Worked cases: empty content, a lone `#`, `#` before a space, the
      shortest tag, a doubled `#`, and a sentence with two tags. */
  lemma Examples()
    ensures HashtagSpans("") == []
    ensures HashtagSpans("#") == []
    ensures HashtagSpans("# ") == []
    ensures HashtagSpans("#a") == [Span(0, 2)]
    ensures HashtagSpans("##a") == [Span(1, 3)]
  {
  }

  /** A sentence with two tags, one of them holding `-` and `_`. */
  const Sentence := "hello #world and #a-b_1 end"

  lemma SentenceHead()
    ensures SpansFrom(Sentence, 0) == [Span(6, 12)] + SpansFrom(Sentence, 12)
  {
    var s := Sentence;
    assert forall k :: 0 <= k < 6 ==> s[k] != '#';
    SpansFromSkip(s, 0, 6);
    assert StartsTag(s, 6);
    assert forall k :: 7 <= k < 12 ==> IsTagChar(s[k]);
    assert !IsTagChar(s[12]);
    RunEndUnique(s, 7, 12);
  }

  lemma SentenceTail()
    ensures SpansFrom(Sentence, 12) == [Span(17, 23)]
  {
    var s := Sentence;
    assert forall k :: 12 <= k < 17 ==> s[k] != '#';
    SpansFromSkip(s, 12, 17);
    assert StartsTag(s, 17);
    assert forall k :: 18 <= k < 23 ==> IsTagChar(s[k]);
    assert !IsTagChar(s[23]);
    RunEndUnique(s, 18, 23);
    assert forall k :: 23 <= k < 27 ==> s[k] != '#';
    SpansFromSkip(s, 23, 27);
  }

  /** In the sentence exactly the two tags are coloured. */
  lemma ExampleSentence()
    ensures HashtagSpans(Sentence) == [Span(6, 12), Span(17, 23)]
  {
    SentenceHead();
    SentenceTail();
  }

  /** One call of `Matcher.find()` from position `from`: the leftmost match
      at or after `from`, extended greedily, or none. */
  method FindNext(s: string, from: nat) returns (found: bool, start: nat, end: nat)
    requires from <= |s|
    ensures found ==> from <= start && IsTagSpan(s, Span(start, end))
    ensures found ==> forall k :: from <= k < start ==> !StartsTag(s, k)
    ensures !found ==> forall k :: from <= k < |s| ==> !StartsTag(s, k)
  {
    var i := from;
    while i < |s| && !StartsTag(s, i)
      invariant from <= i <= |s|
      invariant forall k :: from <= k < i ==> !StartsTag(s, k)
    {
      i := i + 1;
    }
    if i == |s| {
      return false, 0, 0;
    }
    start, end := i, i + 2;
    while end < |s| && IsTagChar(s[end])
      invariant start + 2 <= end <= |s|
      invariant forall k :: start < k < end ==> IsTagChar(s[k])
    {
      end := end + 1;
    }
    found := true;
  }

  /** A scan from `from` that meets no match start before `to` reports what
      a scan from `to` reports. */
  lemma {:induction false} SpansFromSkip(s: string, from: nat, to: nat)
    requires from <= to <= |s|
    requires forall k :: from <= k < to ==> !StartsTag(s, k)
    ensures SpansFrom(s, from) == SpansFrom(s, to)
    decreases |s| - from
  {
    if from < to {
      SpansFromSkip(s, from + 1, to);
    }
  }

  /** The `while (matcher.find())` loop: the spans it colours, in order. */
  method HighlightSpans(s: string) returns (spans: seq<Span>)
    ensures spans == HashtagSpans(s)
  {
    ghost var all := SpansFrom(s, 0);
    spans := [];
    var pos := 0;
    var found, start, end := FindNext(s, pos);
    while found
      invariant pos <= |s|
      invariant found ==> pos <= start && IsTagSpan(s, Span(start, end))
      invariant found ==> forall k :: pos <= k < start ==> !StartsTag(s, k)
      invariant !found ==> forall k :: pos <= k < |s| ==> !StartsTag(s, k)
      invariant spans + SpansFrom(s, pos) == all
      decreases |s| - pos
    {
      SpansFromSkip(s, pos, start);
      RunEndUnique(s, start + 1, end);
      assert SpansFrom(s, start) == [Span(start, end)] + SpansFrom(s, end);
      assert (spans + [Span(start, end)]) + SpansFrom(s, end) == all;
      spans := spans + [Span(start, end)];
      pos := end;
      found, start, end := FindNext(s, pos);
    }
    SpansFromSkip(s, pos, |s|);
    assert spans == all;
  }
}
