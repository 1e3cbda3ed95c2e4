/** generate_srt of app.py (lines 54-61): the SRT document for a list of
    transcription segments. A segment's times are durations in
    microseconds, as in module Timestamp. */
module Srt {
  import opened Text
  import opened Timestamp

  /** One transcribed segment: its start and end and its text. */
  datatype Segment = Segment(start: nat, end: nat, text: string)

  /** The SRT block for a segment numbered index: the number, the timing
      line, the text without surrounding whitespace, and a blank line. */
  function Cue(index: nat, seg: Segment): string {
    Decimal(index) + "\n" + FormatTimestamp(seg.start) + " --> " + FormatTimestamp(seg.end) + "\n"
    + Strip(seg.text) + "\n\n"
  }

  /** The first n segments, the k-th (from 1) of them turned into the
      string block(k, seg), one after the other. */
  function Numbered(block: (nat, Segment) -> string, segs: seq<Segment>, n: nat): string
    requires n <= |segs|
  {
    if n == 0 then "" else Numbered(block, segs, n - 1) + block(n, segs[n - 1])
  }

  /** The SRT document for segs: their blocks numbered from 1, in order.
      The document for no segments is empty. */
  function Document(segs: seq<Segment>): string {
    Numbered(Cue, segs, |segs|)
  }

  /** generate_srt: appends one block per segment, in order, numbering
      from 1. */
  method GenerateSrt(segments: seq<Segment>) returns (srt: string)
    ensures srt == Document(segments)
  {
    srt := "";
    var i := 0;
    while i < |segments|
      invariant 0 <= i <= |segments|
      invariant srt == Numbered(Cue, segments, i)
    {
      var segment := segments[i];
      var start := FormatTimestamp(segment.start);
      var end := FormatTimestamp(segment.end);
      var text := Strip(segment.text);
      srt := srt + (Decimal(i + 1) + "\n" + start + " --> " + end + "\n" + text + "\n\n");
      i := i + 1;
    }
  }

  /** The concatenation of the first n strings of parts, in order. */
  function Concat(parts: seq<string>, n: nat): string
    requires n <= |parts|
  {
    if n == 0 then "" else Concat(parts, n - 1) + parts[n - 1]
  }

  /** The blocks of the segments, the k-th (from 0) numbered k + 1. The
      ensures only expose the comprehension to callers. */
  function Blocks(block: (nat, Segment) -> string, segs: seq<Segment>): (b: seq<string>)
    ensures |b| == |segs|
    ensures forall k :: 0 <= k < |segs| ==> b[k] == block(k + 1, segs[k])
  {
    seq(|segs|, k requires 0 <= k < |segs| => block(k + 1, segs[k]))
  }

  /** The first n segments give the first n blocks. */
  lemma {:induction false} NumberedBlocks(block: (nat, Segment) -> string, segs: seq<Segment>, n: nat)
    requires n <= |segs|
    ensures Numbered(block, segs, n) == Concat(Blocks(block, segs), n)
  {
    if n > 0 {
      NumberedBlocks(block, segs, n - 1);
    }
  }

  /** The document is exactly its blocks, one per segment, in order, the
      k-th (from 0) numbered k + 1. */
  lemma DocumentIsBlocks(segs: seq<Segment>)
    ensures Document(segs) == Concat(Blocks(Cue, segs), |segs|)
  {
    NumberedBlocks(Cue, segs, |segs|);
  }

  lemma PrefixExtend(a: string, b: string, c: string)
    requires a <= b
    ensures a <= b + c
  {
    assert (b + c)[..|b|] == b;
  }

  /** Adding segments only appends: the first i blocks are a prefix of the
      first n. */
  lemma {:induction false} NumberedPrefix(block: (nat, Segment) -> string, segs: seq<Segment>, i: nat, n: nat)
    requires i <= n <= |segs|
    ensures Numbered(block, segs, i) <= Numbered(block, segs, n)
    decreases n
  {
    if i < n {
      NumberedPrefix(block, segs, i, n - 1);
      PrefixExtend(Numbered(block, segs, i), Numbered(block, segs, n - 1), block(n, segs[n - 1]));
    }
  }

  /** The document for the first i segments is a prefix of the document
      for all of them. */
  lemma DocumentPrefix(segs: seq<Segment>, i: nat)
    requires i <= |segs|
    ensures Document(segs[..i]) <= Document(segs)
  {
    NumberedPrefix(Cue, segs, i, |segs|);
    NumberedTake(Cue, segs, i, i);
  }

  /** No segments give the empty document; one more segment appends its
      block, numbered after the others, and changes nothing before it. */
  lemma DocumentAppend(segs: seq<Segment>, x: Segment)
    ensures Document([]) == ""
    ensures Document(segs + [x]) == Document(segs) + Cue(|segs| + 1, x)
  {
    NumberedTake(Cue, segs + [x], |segs|, |segs|);
    assert (segs + [x])[..|segs|] == segs;
  }

  /** The first n blocks depend only on the first n segments. */
  lemma {:induction false} NumberedTake(block: (nat, Segment) -> string, segs: seq<Segment>, i: nat, n: nat)
    requires n <= i <= |segs|
    ensures Numbered(block, segs[..i], n) == Numbered(block, segs, n)
  {
    if n > 0 {
      NumberedTake(block, segs, i, n - 1);
      assert segs[..i][n - 1] == segs[n - 1];
    }
  }

  /** Segments that give equal blocks give equal documents. */
  lemma {:induction false} NumberedPointwise(block: (nat, Segment) -> string, a: seq<Segment>, b: seq<Segment>, n: nat)
    requires n <= |a| == |b|
    requires forall k :: 0 <= k < n ==> block(k + 1, a[k]) == block(k + 1, b[k])
    ensures Numbered(block, a, n) == Numbered(block, b, n)
  {
    if n > 0 {
      NumberedPointwise(block, a, b, n - 1);
    }
  }

  /** The segments with their texts stripped of surrounding whitespace. */
  function StripTexts(segs: seq<Segment>): (r: seq<Segment>)
    ensures |r| == |segs|
  {
    seq(|segs|, k requires 0 <= k < |segs| => segs[k].(text := Strip(segs[k].text)))
  }

  /** A block does not change when its text is stripped first. */
  lemma CueStripped(index: nat, seg: Segment)
    ensures Cue(index, seg.(text := Strip(seg.text))) == Cue(index, seg)
  {
    StripIdempotent(seg.text);
  }

  lemma CuesStripped(segs: seq<Segment>)
    ensures forall k :: 0 <= k < |segs| ==> Cue(k + 1, StripTexts(segs)[k]) == Cue(k + 1, segs[k])
  {
    forall k | 0 <= k < |segs|
      ensures Cue(k + 1, StripTexts(segs)[k]) == Cue(k + 1, segs[k])
    {
      CueStripped(k + 1, segs[k]);
    }
  }

  /** Surrounding whitespace in a segment's text never reaches the
      document. */
  lemma DocumentIgnoresSurroundingSpace(segs: seq<Segment>)
    ensures Document(StripTexts(segs)) == Document(segs)
  {
    CuesStripped(segs);
    NumberedPointwise(Cue, StripTexts(segs), segs, |segs|);
  }

  /** Two segments with the same text and with times that agree to the
      millisecond. */
  predicate SegmentToMillis(x: Segment, y: Segment) {
    x.start / 1000 == y.start / 1000 && x.end / 1000 == y.end / 1000 && x.text == y.text
  }

  /** Two lists of segments that agree, segment by segment, to the
      millisecond. */
  predicate SameToMillis(a: seq<Segment>, b: seq<Segment>) {
    |a| == |b| && forall k :: 0 <= k < |a| ==> SegmentToMillis(a[k], b[k])
  }

  /** Blocks of segments that agree to the millisecond are equal. */
  lemma CueMillis(index: nat, x: Segment, y: Segment)
    requires SegmentToMillis(x, y)
    ensures Cue(index, x) == Cue(index, y)
  {
    SameStamp(x.start, y.start);
    SameStamp(x.end, y.end);
  }

  /** Blocks of segments that agree to the millisecond are equal, for every
      number and every pair of segments. */
  lemma AllCuesMillis()
    ensures forall index: nat, x: Segment, y: Segment :: SegmentToMillis(x, y) ==> Cue(index, x) == Cue(index, y)
  {
    forall index: nat, x: Segment, y: Segment | SegmentToMillis(x, y)
      ensures Cue(index, x) == Cue(index, y)
    {
      CueMillis(index, x, y);
    }
  }

  /** The document sees the times only to the millisecond. */
  lemma DocumentMillis(a: seq<Segment>, b: seq<Segment>)
    requires SameToMillis(a, b)
    ensures Document(a) == Document(b)
  {
    AllCuesMillis();
    NumberedPointwise(Cue, a, b, |a|);
  }
}
