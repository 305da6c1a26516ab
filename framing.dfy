/**
 * The frame extractor of the P1 pipeline (`telegrams()`): it appends each
 * incoming chunk to one buffer and cuts `(telegram, checksum)` frames off its
 * front. A telegram ends at the first `!`; the 4 characters after it are the
 * checksum; the 2 characters after those (the CR LF line end) are skipped
 * without being looked at.
 *
 * The frame is cut as soon as the checksum is complete, before the line end has
 * arrived; when the buffer then ends within those 2 characters, the rest of the
 * line end is left to open the next telegram. `Extract` states what one pass
 * over a buffer yields, `FrameExtractor` is the stateful extractor, and the
 * lemmas say how the result depends on the way the stream is cut into chunks.
 */
module Framing {
  import opened Base
  import opened JsString

  /** One emitted frame: the telegram through its `!`, and the 4 characters after it. */
  datatype Frame = Frame(telegram: string, checksum: string)

  /**
   * The outcome of running the extraction loop over a buffer: the frames in the
   * order they were emitted, the characters skipped after each checksum (one
   * entry per frame), and what is left in the buffer.
   */
  datatype Extraction = Extraction(frames: seq<Frame>, dropped: seq<string>, rest: string)

  /** The loop condition: a `!` exists and at least 4 characters follow it. */
  predicate Ready(s: string)
  {
    var pos := IndexOf(s, '!');
    pos != -1 && pos <= |s| - 5
  }

  /** No `!` stands at an index where 4 characters follow it. */
  predicate Settled(s: string)
  {
    forall i :: 0 <= i <= |s| - 5 ==> s[i] != '!'
  }

  /** A well-formed frame: the telegram holds exactly one `!`, at its end, and the checksum has 4 characters. */
  predicate WellFormed(f: Frame)
  {
    && |f.telegram| >= 1
    && f.telegram[|f.telegram| - 1] == '!'
    && '!' !in f.telegram[..|f.telegram| - 1]
    && |f.checksum| == 4
  }

  /** What follows the checksum's line end: empty when the buffer ends inside it. */
  function After(s: string, pos: nat): string
  {
    if pos + 7 <= |s| then s[pos + 7..] else []
  }

  /** The line end skipped after the checksum: the 2 characters after it, or fewer at the end. */
  function LineEnd(s: string, pos: nat): string
    requires pos + 5 <= |s|
  {
    if pos + 7 <= |s| then s[pos + 5..pos + 7] else s[pos + 5..]
  }

  /** A buffer is the telegram, the checksum, the line end and what follows, glued back together. */
  lemma CutParts(s: string, pos: nat)
    requires pos + 5 <= |s|
    ensures s == s[..pos + 1] + s[pos + 1..pos + 5] + LineEnd(s, pos) + After(s, pos)
  {
    var e := if pos + 7 <= |s| then pos + 7 else |s|;
    assert LineEnd(s, pos) == s[pos + 5..e];
    assert After(s, pos) == s[e..];
    assert s[pos + 5..] == s[pos + 5..e] + s[e..];
    assert s[pos + 1..] == s[pos + 1..pos + 5] + s[pos + 5..];
    assert s == s[..pos + 1] + s[pos + 1..];
  }

  /** What the extraction loop produces from the buffer `s`. */
  function Extract(s: string): (x: Extraction)
    ensures |x.frames| == |x.dropped|
    ensures |x.rest| <= |s|
    decreases |s|
  {
    var pos := IndexOf(s, '!');
    if pos != -1 && pos <= |s| - 5 then
      var tail := Extract(After(s, pos));
      Extraction([Frame(s[..pos + 1], s[pos + 1..pos + 5])] + tail.frames,
                 [LineEnd(s, pos)] + tail.dropped,
                 tail.rest)
    else
      Extraction([], [], s)
  }

  /** One turn of the loop (`slice` for slice) as the source writes it. */
  lemma SliceStep(s: string)
    requires Ready(s)
    ensures var pos := IndexOf(s, '!');
            && Slice(s, 0, pos + 1) == s[..pos + 1]
            && Slice(s, pos + 1, pos + 5) == s[pos + 1..pos + 5]
            && Slice(s, pos + 5, pos + 7) == LineEnd(s, pos)
            && SliceFrom(s, pos + 7) == After(s, pos)
  {
    var pos := IndexOf(s, '!');
    if pos + 7 <= |s| {
      assert Slice(s, pos + 5, pos + 7) == s[pos + 5..pos + 7];
    } else {
      assert Position(pos + 7, |s|) == |s|;
      assert Slice(s, pos + 5, pos + 7) == s[pos + 5..|s|];
      assert s[pos + 5..|s|] == s[pos + 5..];
    }
  }

  /** A buffer that is not ready is kept whole and yields nothing. */
  lemma ExtractIdle(s: string)
    requires !Ready(s)
    ensures Extract(s) == Extraction([], [], s)
    ensures Settled(s)
  {
    forall i | 0 <= i <= |s| - 5 && s[i] == '!' ensures false {
      IndexOfAtMost(s, '!', i);
    }
  }

  /** The first turn of the loop on a ready buffer. */
  lemma ExtractUnfold(s: string, pos: int)
    requires pos == IndexOf(s, '!') && pos != -1 && pos + 5 <= |s|
    ensures var t := Extract(After(s, pos));
            Extract(s) == Extraction([Frame(s[..pos + 1], s[pos + 1..pos + 5])] + t.frames,
                                     [LineEnd(s, pos)] + t.dropped,
                                     t.rest)
  {
  }

  /**
   * Every emitted telegram is a buffer prefix that ends at its first `!`, every
   * checksum has 4 characters, no more than 2 characters are skipped after each
   * checksum, and the loop stops only once no `!` in the buffer has 4 characters
   * after it.
   */
  lemma {:induction false} ExtractWellFormed(s: string)
    ensures forall k :: 0 <= k < |Extract(s).frames| ==> WellFormed(Extract(s).frames[k])
    ensures forall k :: 0 <= k < |Extract(s).dropped| ==> |Extract(s).dropped[k]| <= 2
    ensures Settled(Extract(s).rest)
    decreases |s|
  {
    if Ready(s) {
      var pos := IndexOf(s, '!');
      var next := After(s, pos);
      ExtractWellFormed(next);
      ExtractUnfold(s, pos);
      IndexOfFirst(s, '!');
      var x, t := Extract(s), Extract(next);
      var f := Frame(s[..pos + 1], s[pos + 1..pos + 5]);
      assert WellFormed(f) by {
        assert f.telegram[..pos] == s[..pos];
        forall j | 0 <= j < pos ensures f.telegram[..pos][j] != '!' {
          assert f.telegram[..pos][j] == s[j];
        }
      }
      assert x.frames == [f] + t.frames;
      assert x.dropped == [LineEnd(s, pos)] + t.dropped;
      forall k | 0 <= k < |x.frames| ensures WellFormed(x.frames[k]) {
        if k > 0 { assert x.frames[k] == t.frames[k - 1]; }
      }
      forall k | 0 <= k < |x.dropped| ensures |x.dropped[k]| <= 2 {
        if k > 0 { assert x.dropped[k] == t.dropped[k - 1]; }
      }
    } else {
      ExtractIdle(s);
    }
  }

  /** The stream text that a list of frames and their skipped line ends came from. */
  function Consumed(frames: seq<Frame>, dropped: seq<string>): string
    requires |frames| == |dropped|
  {
    if |frames| == 0 then []
    else frames[0].telegram + frames[0].checksum + dropped[0] + Consumed(frames[1..], dropped[1..])
  }

  /** The extraction of one buffer followed by the extraction of what comes after it. */
  function Then(x: Extraction, y: Extraction): Extraction
  {
    Extraction(x.frames + y.frames, x.dropped + y.dropped, y.rest)
  }

  /** Every skipped line end had its full 2 characters. */
  predicate FullLineEnds(x: Extraction)
  {
    forall k :: 0 <= k < |x.dropped| ==> |x.dropped[k]| == 2
  }

  /** The buffer is exactly the frames and their skipped line ends, in order, followed by the rest. */
  lemma {:induction false} ExtractConsumes(s: string)
    ensures s == Consumed(Extract(s).frames, Extract(s).dropped) + Extract(s).rest
    decreases |s|
  {
    if Ready(s) {
      var pos := IndexOf(s, '!');
      var next := After(s, pos);
      ExtractConsumes(next);
      ExtractUnfold(s, pos);
      var x, t := Extract(s), Extract(next);
      var f := Frame(s[..pos + 1], s[pos + 1..pos + 5]);
      var d := LineEnd(s, pos);
      assert x.frames[0] == f && x.frames[1..] == t.frames;
      assert x.dropped[0] == d && x.dropped[1..] == t.dropped;
      var head := f.telegram + f.checksum + d;
      assert Consumed(x.frames, x.dropped) == head + Consumed(t.frames, t.dropped);
      CutParts(s, pos);
      ConcatAssoc(head, Consumed(t.frames, t.dropped), t.rest);
    } else {
      ExtractIdle(s);
    }
  }

  /**
   * Only the last skipped line end can be short of 2 characters, and when it
   * is, nothing is left in the buffer.
   */
  lemma {:induction false} ExtractShortLast(s: string)
    ensures forall k :: 0 <= k < |Extract(s).dropped| - 1 ==> |Extract(s).dropped[k]| == 2
    ensures !FullLineEnds(Extract(s)) ==> Extract(s).rest == []
    decreases |s|
  {
    if Ready(s) {
      var pos := IndexOf(s, '!');
      var next := After(s, pos);
      ExtractUnfold(s, pos);
      var x, t := Extract(s), Extract(next);
      assert x.dropped == [LineEnd(s, pos)] + t.dropped;
      if pos + 7 <= |s| {
        ExtractShortLast(next);
        assert |x.dropped[0]| == 2;
        forall k | 0 <= k < |x.dropped| - 1 ensures |x.dropped[k]| == 2 {
          if k > 0 { assert x.dropped[k] == t.dropped[k - 1]; }
        }
        if !FullLineEnds(x) {
          var k :| 0 <= k < |x.dropped| && |x.dropped[k]| != 2;
          assert x.dropped[k] == t.dropped[k - 1];
        }
      } else {
        assert next == [];
        ExtractIdle(next);
        assert |x.dropped| == 1;
      }
    } else {
      ExtractIdle(s);
    }
  }

  /**
   * Feeding `s1` and then `s2` emits what the whole of `s1 + s2` would, provided
   * every frame cut from `s1` had its full line end: cutting a stream into
   * chunks changes nothing unless a chunk ends 4 or 5 characters after a `!`,
   * that is, after a checksum but before the whole line end that follows it.
   */
  lemma {:induction false} ExtractAppend(s1: string, s2: string)
    requires FullLineEnds(Extract(s1))
    ensures Extract(s1 + s2) == Then(Extract(s1), Extract(Extract(s1).rest + s2))
    decreases |s1|
  {
    if Ready(s1) {
      var pos := IndexOf(s1, '!');
      var next := After(s1, pos);
      FullLineEndsTail(s1);
      ExtractAppend(next, s2);
      ExtractAppendStep(s1, s2, pos);
    } else {
      IdleAppend(s1, s2);
    }
  }

  lemma IdleAppend(s1: string, s2: string)
    requires !Ready(s1)
    ensures Extract(s1 + s2) == Then(Extract(s1), Extract(Extract(s1).rest + s2))
  {
    ExtractIdle(s1);
    var y := Extract(s1 + s2);
    assert [] + y.frames == y.frames;
    assert [] + y.dropped == y.dropped;
  }

  /** One frame of `ExtractAppend`: given the claim for what follows the first frame, it holds for the whole. */
  lemma ExtractAppendStep(s1: string, s2: string, pos: int)
    requires pos == IndexOf(s1, '!') && pos != -1 && pos + 7 <= |s1|
    requires var next := After(s1, pos);
             Extract(next + s2) == Then(Extract(next), Extract(Extract(next).rest + s2))
    ensures Extract(s1 + s2) == Then(Extract(s1), Extract(Extract(s1).rest + s2))
  {
    var s := s1 + s2;
    var next := After(s1, pos);
    AppendUnderFrame(s1, s2);
    ExtractUnfold(s1, pos);
    ExtractUnfold(s, pos);
    var t1 := Extract(next);
    var t2 := Extract(t1.rest + s2);
    var f := Frame(s1[..pos + 1], s1[pos + 1..pos + 5]);
    var d := LineEnd(s1, pos);
    ConcatAssoc([f], t1.frames, t2.frames);
    ConcatAssoc([d], t1.dropped, t2.dropped);
  }

  /** With full line ends, the first frame's line end lies inside the buffer and the rest of the buffer has full line ends too. */
  lemma FullLineEndsTail(s: string)
    requires Ready(s) && FullLineEnds(Extract(s))
    ensures IndexOf(s, '!') + 7 <= |s|
    ensures FullLineEnds(Extract(After(s, IndexOf(s, '!'))))
  {
    var pos := IndexOf(s, '!');
    ExtractUnfold(s, pos);
    var t := Extract(After(s, pos));
    PairsTail(LineEnd(s, pos), t.dropped);
  }

  lemma PairsTail(d: string, rest: seq<string>)
    requires forall k :: 0 <= k < |[d] + rest| ==> |([d] + rest)[k]| == 2
    ensures |d| == 2
    ensures forall k :: 0 <= k < |rest| ==> |rest[k]| == 2
  {
    assert ([d] + rest)[0] == d;
    forall k | 0 <= k < |rest| ensures |rest[k]| == 2 {
      assert ([d] + rest)[k + 1] == rest[k];
    }
  }

  /** Text appended after a complete frame and line end leaves that frame as it was. */
  lemma AppendUnderFrame(s1: string, s2: string)
    requires Ready(s1) && IndexOf(s1, '!') + 7 <= |s1|
    ensures var pos := IndexOf(s1, '!');
            && Ready(s1 + s2) && IndexOf(s1 + s2, '!') == pos
            && (s1 + s2)[..pos + 1] == s1[..pos + 1]
            && (s1 + s2)[pos + 1..pos + 5] == s1[pos + 1..pos + 5]
            && LineEnd(s1 + s2, pos) == LineEnd(s1, pos)
            && After(s1 + s2, pos) == After(s1, pos) + s2
  {
    IndexOfAppend(s1, s2, '!');
  }

  /** Full line ends on both sides of a chunk boundary give full line ends for the whole. */
  lemma ExtractAppendFull(s1: string, s2: string)
    requires FullLineEnds(Extract(s1))
    requires FullLineEnds(Extract(Extract(s1).rest + s2))
    ensures FullLineEnds(Extract(s1 + s2))
  {
    ExtractAppend(s1, s2);
  }

  /**
   * `telegrams()`: one extractor holds one buffer for the whole stream. The
   * ghost fields record the stream fed so far, the frames emitted so far, and
   * whether every frame so far found its full line end in the buffer.
   */
  class FrameExtractor {
    var buffer: string
    ghost var stream: string
    ghost var emitted: seq<Frame>
    ghost var aligned: bool

    /**
     * The buffer never keeps a `!` that has its 4 checksum characters. While no
     * chunk has ended inside a line end, the emitted frames and the buffer are
     * what extracting the whole stream at once would give.
     */
    ghost predicate Valid()
      reads this
    {
      && Settled(buffer)
      && (aligned ==> FullLineEnds(Extract(stream)))
      && (aligned ==> Extract(stream).frames == emitted && Extract(stream).rest == buffer)
    }

    constructor ()
      ensures Valid()
      ensures buffer == [] && stream == [] && emitted == [] && aligned
    {
      buffer := [];
      stream := [];
      emitted := [];
      aligned := true;
    }

    /** Handle one chunk (`next(value)`): return the frames it completes, in order. */
    method Feed(chunk: string) returns (frames: seq<Frame>)
      requires Valid()
      modifies this
      ensures Valid()
      ensures frames == Extract(old(buffer) + chunk).frames
      ensures buffer == Extract(old(buffer) + chunk).rest
      ensures stream == old(stream) + chunk && emitted == old(emitted) + frames
      ensures aligned == (old(aligned) && FullLineEnds(Extract(old(buffer) + chunk)))
    {
      var rest;
      frames, rest := TakeFrames(buffer + chunk);
      FeedKeepsAlignment(stream, buffer, chunk, aligned);
      buffer := rest;
      stream := stream + chunk;
      emitted := emitted + frames;
      aligned := aligned && FullLineEnds(Extract(old(buffer) + chunk));
    }
  }

  /**
   * The loop of the stream handler: while the buffer holds a `!` followed by
   * its 4 checksum characters, cut a frame off the front and drop the line
   * end after it.
   */
  method TakeFrames(s: string) returns (frames: seq<Frame>, rest: string)
    ensures frames == Extract(s).frames && rest == Extract(s).rest
    ensures Settled(rest)
    ensures forall k :: 0 <= k < |frames| ==> WellFormed(frames[k])
  {
    rest := s;
    ghost var skipped: seq<string> := [];
    frames := [];
    var pos := IndexOf(rest, '!');
    ThenNothing(Extract(s));
    while pos != -1 && pos <= |rest| - 5
      invariant pos == IndexOf(rest, '!')
      invariant Extract(s) == Then(Extraction(frames, skipped, []), Extract(rest))
      decreases |rest|
    {
      LoopStep(s, frames, skipped, rest, pos);
      var telegram := Slice(rest, 0, pos + 1);
      var checksum := Slice(rest, pos + 1, pos + 5);
      skipped := skipped + [Slice(rest, pos + 5, pos + 7)];
      rest := SliceFrom(rest, pos + 7);
      frames := frames + [Frame(telegram, checksum)];
      pos := IndexOf(rest, '!');
    }
    LoopDone(s, frames, skipped, rest);
    ExtractWellFormed(s);
  }

  /** One turn of `Feed`'s loop keeps its invariant. */
  lemma LoopStep(whole: string, frames: seq<Frame>, skipped: seq<string>, s: string, pos: int)
    requires Ready(s) && pos == IndexOf(s, '!')
    requires Extract(whole) == Then(Extraction(frames, skipped, []), Extract(s))
    ensures Extract(whole) == Then(Extraction(frames + [Frame(Slice(s, 0, pos + 1), Slice(s, pos + 1, pos + 5))],
                                              skipped + [Slice(s, pos + 5, pos + 7)], []),
                                   Extract(SliceFrom(s, pos + 7)))
  {
    SliceStep(s);
    ExtractFirst(s);
    ThenStep(Extract(whole), frames, skipped, Extract(s),
             Frame(s[..pos + 1], s[pos + 1..pos + 5]), LineEnd(s, pos), Extract(After(s, pos)));
  }

  lemma ThenStep(w: Extraction, frames: seq<Frame>, skipped: seq<string>, x: Extraction, f: Frame, d: string, y: Extraction)
    requires w == Then(Extraction(frames, skipped, []), x)
    requires x == Then(Extraction([f], [d], []), y)
    ensures w == Then(Extraction(frames + [f], skipped + [d], []), y)
  {
    ThenAssoc(frames, skipped, f, d, y);
  }

  /** When `Feed`'s loop stops, its invariant gives the whole extraction. */
  lemma LoopDone(whole: string, frames: seq<Frame>, skipped: seq<string>, s: string)
    requires !Ready(s)
    requires Extract(whole) == Then(Extraction(frames, skipped, []), Extract(s))
    ensures Extract(whole) == Extraction(frames, skipped, s)
  {
    ExtractIdle(s);
    ConcatNothing(frames);
    ConcatNothing(skipped);
  }

  /** What `Valid` asks of the stream after a chunk, from what it held before it. */
  lemma FeedKeepsAlignment(stream: string, buffer: string, chunk: string, aligned: bool)
    requires aligned ==> FullLineEnds(Extract(stream)) && Extract(stream).rest == buffer
    ensures aligned && FullLineEnds(Extract(buffer + chunk)) ==>
      && FullLineEnds(Extract(stream + chunk))
      && Extract(stream + chunk).frames == Extract(stream).frames + Extract(buffer + chunk).frames
      && Extract(stream + chunk).rest == Extract(buffer + chunk).rest
  {
    if aligned && FullLineEnds(Extract(buffer + chunk)) {
      ExtractAppend(stream, chunk);
      ExtractAppendFull(stream, chunk);
    }
  }

  lemma ConcatNothing<T>(a: seq<T>)
    ensures a + [] == a
  {
  }

  /** Nothing extracted, followed by an extraction, is that extraction. */
  lemma ThenNothing(x: Extraction)
    ensures x == Then(Extraction([], [], []), x)
  {
    ConcatAssoc([], [], x.frames);
    assert [] + x.frames == x.frames;
    assert [] + x.dropped == x.dropped;
  }

  /** The first turn of the loop, as one frame followed by the extraction of the rest. */
  lemma ExtractFirst(s: string)
    requires Ready(s)
    ensures var pos := IndexOf(s, '!');
            Extract(s) == Then(Extraction([Frame(s[..pos + 1], s[pos + 1..pos + 5])], [LineEnd(s, pos)], []),
                               Extract(After(s, pos)))
  {
    var pos := IndexOf(s, '!');
    ExtractUnfold(s, pos);
  }

  /** Moving one emitted frame from the extraction still to come to the frames already out. */
  lemma ThenAssoc(frames: seq<Frame>, dropped: seq<string>, f: Frame, d: string, y: Extraction)
    ensures Then(Extraction(frames, dropped, []), Then(Extraction([f], [d], []), y))
         == Then(Extraction(frames + [f], dropped + [d], []), y)
  {
    ConcatAssoc(frames, [f], y.frames);
    ConcatAssoc(dropped, [d], y.dropped);
  }

  /**
   * A stream that starts with a telegram (text up to and including its only
   * `!`), its 4 checksum characters and a line end extracts to that frame
   * first; a line end cut short must end the stream.
   */
  lemma ExtractCons(t: string, c: string, e: string, rest: string)
    requires WellFormed(Frame(t, c))
    requires |e| == 2 || (|e| < 2 && rest == [])
    ensures Extract(t + c + e + rest)
         == Extraction([Frame(t, c)] + Extract(rest).frames, [e] + Extract(rest).dropped, Extract(rest).rest)
  {
    var s := t + c + e + rest;
    var pos := |t| - 1;
    ConsParts(t, c, e, rest);
    ExtractUnfold(s, pos);
  }

  /** Where the pieces of a glued stream lie. */
  lemma ConsParts(t: string, c: string, e: string, rest: string)
    requires WellFormed(Frame(t, c))
    requires |e| == 2 || (|e| < 2 && rest == [])
    ensures var s, pos := t + c + e + rest, |t| - 1;
            && IndexOf(s, '!') == pos && pos + 5 <= |s|
            && s[..pos + 1] == t && s[pos + 1..pos + 5] == c
            && LineEnd(s, pos) == e && After(s, pos) == rest
  {
    var s := t + c + e + rest;
    var pos := |t| - 1;
    assert s[pos] == '!';
    forall j | 0 <= j < pos ensures s[j] != '!' {
      assert s[j] == t[..pos][j];
    }
    IndexOfIs(s, '!', pos);
    assert s[..pos + 1] == t;
    assert s[pos + 1..pos + 5] == c;
    if |e| == 2 {
      assert s[pos + 5..pos + 7] == e;
      assert s[pos + 7..] == rest;
    } else {
      assert s[pos + 5..] == e;
    }
  }

  /**
   * A chunk that ends 4 characters after a `!` gets its frame cut at once and
   * nothing skipped after it, so the line end that arrives with the next chunk
   * opens the following telegram; fed as one chunk, the same stream yields
   * that telegram without it.
   */
  lemma ChunkBoundaryMatters(t1: string, c1: string, t2: string, c2: string)
    requires WellFormed(Frame(t1, c1)) && WellFormed(Frame(t2, c2))
    ensures Extract(t1 + c1) == Extraction([Frame(t1, c1)], [[]], [])
    ensures Extract("\r\n" + t2 + c2 + "\r\n").frames == [Frame("\r\n" + t2, c2)]
    ensures Extract(t1 + c1 + "\r\n" + (t2 + c2 + "\r\n")).frames == [Frame(t1, c1), Frame(t2, c2)]
    ensures Frame("\r\n" + t2, c2) != Frame(t2, c2)
  {
    FrameAtEnd(t1, c1);
    LineEndOpens(t2, c2);
    TwoFrames(t1, c1, t2, c2);
    assert |"\r\n" + t2| != |t2|;
  }

  lemma FrameAtEnd(t: string, c: string)
    requires WellFormed(Frame(t, c))
    ensures Extract(t + c) == Extraction([Frame(t, c)], [[]], [])
  {
    ExtractIdle([]);
    ExtractCons(t, c, [], []);
    assert t + c + [] + [] == t + c;
  }

  lemma LineEndOpens(t: string, c: string)
    requires WellFormed(Frame(t, c))
    ensures Extract("\r\n" + t + c + "\r\n").frames == [Frame("\r\n" + t, c)]
  {
    ExtractIdle([]);
    var u := "\r\n" + t;
    assert u[..|u| - 1] == "\r\n" + t[..|t| - 1];
    ExtractCons(u, c, "\r\n", []);
    assert u + c + "\r\n" + [] == "\r\n" + t + c + "\r\n";
  }

  lemma TwoFrames(t1: string, c1: string, t2: string, c2: string)
    requires WellFormed(Frame(t1, c1)) && WellFormed(Frame(t2, c2))
    ensures Extract(t1 + c1 + "\r\n" + (t2 + c2 + "\r\n")).frames == [Frame(t1, c1), Frame(t2, c2)]
  {
    ExtractIdle([]);
    var r := t2 + c2 + "\r\n";
    ExtractCons(t2, c2, "\r\n", []);
    ConcatNothing(r);
    ExtractCons(t1, c1, "\r\n", r);
  }

  // The extraction the line-end arithmetic evidently intends: cut a frame only
  // once the 2 line-end characters after the checksum have arrived as well.

  /** Extraction that waits for the whole line end after the checksum. */
  function ExtractWaiting(s: string): (x: Extraction)
    ensures |x.frames| == |x.dropped|
    ensures |x.rest| <= |s|
    decreases |s|
  {
    var pos := IndexOf(s, '!');
    if pos != -1 && pos <= |s| - 7 then
      var tail := ExtractWaiting(After(s, pos));
      Extraction([Frame(s[..pos + 1], s[pos + 1..pos + 5])] + tail.frames,
                 [LineEnd(s, pos)] + tail.dropped,
                 tail.rest)
    else
      Extraction([], [], s)
  }

  lemma WaitingUnfold(s: string, pos: int)
    requires pos == IndexOf(s, '!') && pos != -1 && pos + 7 <= |s|
    ensures var t := ExtractWaiting(After(s, pos));
            ExtractWaiting(s) == Extraction([Frame(s[..pos + 1], s[pos + 1..pos + 5])] + t.frames,
                                            [LineEnd(s, pos)] + t.dropped,
                                            t.rest)
  {
  }

  /** With the waiting extraction, how the stream is cut into chunks never matters. */
  lemma {:induction false} ExtractWaitingAppend(s1: string, s2: string)
    ensures ExtractWaiting(s1 + s2) == Then(ExtractWaiting(s1), ExtractWaiting(ExtractWaiting(s1).rest + s2))
    decreases |s1|
  {
    var pos := IndexOf(s1, '!');
    if pos != -1 && pos + 7 <= |s1| {
      ExtractWaitingAppend(After(s1, pos), s2);
      WaitingAppendStep(s1, s2, pos);
    } else {
      var y := ExtractWaiting(s1 + s2);
      assert [] + y.frames == y.frames;
      assert [] + y.dropped == y.dropped;
    }
  }

  /** One frame of `ExtractWaitingAppend`. */
  lemma WaitingAppendStep(s1: string, s2: string, pos: int)
    requires pos == IndexOf(s1, '!') && pos != -1 && pos + 7 <= |s1|
    requires var next := After(s1, pos);
             ExtractWaiting(next + s2) == Then(ExtractWaiting(next), ExtractWaiting(ExtractWaiting(next).rest + s2))
    ensures ExtractWaiting(s1 + s2) == Then(ExtractWaiting(s1), ExtractWaiting(ExtractWaiting(s1).rest + s2))
  {
    var s := s1 + s2;
    var next := After(s1, pos);
    AppendUnderFrame(s1, s2);
    WaitingUnfold(s1, pos);
    WaitingUnfold(s, pos);
    var t1 := ExtractWaiting(next);
    var t2 := ExtractWaiting(t1.rest + s2);
    var f := Frame(s1[..pos + 1], s1[pos + 1..pos + 5]);
    var d := LineEnd(s1, pos);
    ConcatAssoc([f], t1.frames, t2.frames);
    ConcatAssoc([d], t1.dropped, t2.dropped);
  }

  /**
   * Whenever every frame finds its whole line end in the buffer, the extraction
   * as written and the waiting one agree.
   */
  lemma {:induction false} WaitingAgrees(s: string)
    requires FullLineEnds(Extract(s))
    ensures ExtractWaiting(s) == Extract(s)
    decreases |s|
  {
    if Ready(s) {
      var pos := IndexOf(s, '!');
      FullLineEndsTail(s);
      WaitingAgrees(After(s, pos));
      ExtractUnfold(s, pos);
      WaitingUnfold(s, pos);
    } else {
      ExtractIdle(s);
    }
  }

  /** The corrected loop condition: a `!` with its checksum and its whole line end after it. */
  predicate Complete(s: string)
  {
    var pos := IndexOf(s, '!');
    pos != -1 && pos <= |s| - 7
  }

  /** Nothing to cut: the waiting extraction leaves the buffer as it is. */
  lemma WaitingIdle(s: string)
    requires !Complete(s)
    ensures ExtractWaiting(s) == Extraction([], [], s)
  {
  }

  /** The first turn of the corrected loop, as one frame followed by the extraction of the rest. */
  lemma WaitingFirst(s: string)
    requires Complete(s)
    ensures var pos := IndexOf(s, '!');
            ExtractWaiting(s) == Then(Extraction([Frame(s[..pos + 1], s[pos + 1..pos + 5])], [LineEnd(s, pos)], []),
                                      ExtractWaiting(After(s, pos)))
  {
    var pos := IndexOf(s, '!');
    WaitingUnfold(s, pos);
  }

  /** One turn of the corrected loop keeps its invariant. */
  lemma WaitingLoopStep(whole: string, frames: seq<Frame>, skipped: seq<string>, s: string, pos: int)
    requires Complete(s) && pos == IndexOf(s, '!')
    requires ExtractWaiting(whole) == Then(Extraction(frames, skipped, []), ExtractWaiting(s))
    ensures ExtractWaiting(whole)
         == Then(Extraction(frames + [Frame(Slice(s, 0, pos + 1), Slice(s, pos + 1, pos + 5))],
                            skipped + [Slice(s, pos + 5, pos + 7)], []),
                 ExtractWaiting(SliceFrom(s, pos + 7)))
  {
    SliceStep(s);
    WaitingFirst(s);
    ThenStep(ExtractWaiting(whole), frames, skipped, ExtractWaiting(s),
             Frame(s[..pos + 1], s[pos + 1..pos + 5]), LineEnd(s, pos), ExtractWaiting(After(s, pos)));
  }

  /** When the corrected loop stops, its invariant gives the whole extraction. */
  lemma WaitingLoopDone(whole: string, frames: seq<Frame>, skipped: seq<string>, s: string)
    requires !Complete(s)
    requires ExtractWaiting(whole) == Then(Extraction(frames, skipped, []), ExtractWaiting(s))
    ensures ExtractWaiting(whole) == Extraction(frames, skipped, s)
  {
    WaitingIdle(s);
    ConcatNothing(frames);
    ConcatNothing(skipped);
  }

  /** The corrected loop: cut a frame only once its line end is in the buffer too. */
  method TakeCompleteFrames(s: string) returns (frames: seq<Frame>, rest: string)
    ensures frames == ExtractWaiting(s).frames && rest == ExtractWaiting(s).rest
    ensures !Complete(rest)
  {
    rest := s;
    ghost var skipped: seq<string> := [];
    frames := [];
    var pos := IndexOf(rest, '!');
    ThenNothing(ExtractWaiting(s));
    while pos != -1 && pos <= |rest| - 7
      invariant pos == IndexOf(rest, '!')
      invariant ExtractWaiting(s) == Then(Extraction(frames, skipped, []), ExtractWaiting(rest))
      decreases |rest|
    {
      WaitingLoopStep(s, frames, skipped, rest, pos);
      var telegram := Slice(rest, 0, pos + 1);
      var checksum := Slice(rest, pos + 1, pos + 5);
      skipped := skipped + [Slice(rest, pos + 5, pos + 7)];
      rest := SliceFrom(rest, pos + 7);
      frames := frames + [Frame(telegram, checksum)];
      pos := IndexOf(rest, '!');
    }
    WaitingLoopDone(s, frames, skipped, rest);
  }

  /**
   * The extractor with the corrected condition. Whatever the chunks, the frames
   * emitted so far and the buffer are exactly what one extraction over the whole
   * stream gives.
   */
  class WaitingExtractor {
    var buffer: string
    ghost var stream: string
    ghost var emitted: seq<Frame>

    ghost predicate Valid()
      reads this
    {
      && !Complete(buffer)
      && ExtractWaiting(stream).frames == emitted
      && ExtractWaiting(stream).rest == buffer
    }

    constructor ()
      ensures Valid()
      ensures buffer == [] && stream == [] && emitted == []
    {
      buffer := [];
      stream := [];
      emitted := [];
    }

    /** Handle one chunk: return the frames it completes, in order. */
    method Feed(chunk: string) returns (frames: seq<Frame>)
      requires Valid()
      modifies this
      ensures Valid()
      ensures frames == ExtractWaiting(old(buffer) + chunk).frames
      ensures buffer == ExtractWaiting(old(buffer) + chunk).rest
      ensures stream == old(stream) + chunk && emitted == old(emitted) + frames
    {
      var rest;
      frames, rest := TakeCompleteFrames(buffer + chunk);
      ExtractWaitingAppend(stream, chunk);
      buffer := rest;
      stream := stream + chunk;
      emitted := emitted + frames;
    }
  }
}
