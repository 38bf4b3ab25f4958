/** Reading through a document frame by frame: what a run of firing ticks
    shows and where it leaves the reader. With the chunk size held fixed, the
    chunks shown over a page are that page's words exactly once each, and
    playing from the start of a page reaches the end of the document and stops
    after a number of firing frames that depends only on the page lengths and
    the words per frame. */
module Playback {
  import opened Wrappers
  import opened PageBuilder
  import opened Reader

  /** The state after some firing frames and the chunks they showed, oldest
      first. */
  datatype Trace = Trace(final: State, chunks: seq<seq<string>>)

  /** `n` consecutive frames on which the pacing timer fired. */
  function Run(s: State, n: nat): (t: Trace)
    requires Valid(s)
    ensures Valid(t.final)
    ensures t.final.pages == s.pages && t.final.wordsPerFrame == s.wordsPerFrame
    decreases n
  {
    if n == 0 then Trace(s, [])
    else
      var step := Tick(s, true);
      var rest := Run(step.state, n - 1);
      Trace(rest.final, ToSeq(step.chunk) + rest.chunks)
  }

  /** All the words of a list of chunks (or pages), in order. */
  function Flatten(css: seq<seq<string>>): seq<string> {
    if css == [] then [] else css[0] + Flatten(css[1..])
  }

  /** Every chunk holds between one and `wpf` words. */
  predicate ChunksSized(css: seq<seq<string>>, wpf: nat) {
    forall i :: 0 <= i < |css| ==> 1 <= |css[i]| <= wpf
  }

  /** The number of firing frames that show words of a page of `len` words
      when reading starts at word `w` with `wpf` words per frame. */
  function ChunksLeft(len: nat, w: nat, wpf: nat): nat
    requires wpf >= 1
    decreases len - w
  {
    if w >= len then 0 else 1 + ChunksLeft(len, w + wpf, wpf)
  }

  /** The number of firing frames from the start of page `p` until playback
      stops: each page's chunks plus one frame that turns the page (or, on
      the last page, stops). */
  function FramesToEnd(pages: seq<Page>, p: nat, wpf: nat): nat
    requires p < |pages|
    requires wpf >= 1
    decreases |pages| - p
  {
    ChunksLeft(|pages[p]|, 0, wpf) + 1 +
      (if p + 1 < |pages| then FramesToEnd(pages, p + 1, wpf) else 0)
  }

  lemma {:induction false} FlattenAppend(a: seq<seq<string>>, b: seq<seq<string>>)
    ensures Flatten(a + b) == Flatten(a) + Flatten(b)
    decreases |a|
  {
    if a == [] {
      assert a + b == b;
    } else {
      assert (a + b)[1..] == a[1..] + b;
      FlattenAppend(a[1..], b);
    }
  }

  /** Running `a` then `b` frames is running `a + b` frames. */
  lemma {:induction false} RunAppend(s: State, a: nat, b: nat)
    requires Valid(s)
    ensures Run(s, a + b).final == Run(Run(s, a).final, b).final
    ensures Run(s, a + b).chunks == Run(s, a).chunks + Run(Run(s, a).final, b).chunks
    decreases a
  {
    if a > 0 {
      var step := Tick(s, true);
      RunAppend(step.state, a - 1, b);
      RunStep(s, a);
      RunStep(s, a + b);
    }
  }

  /** Two runs that meet at state `mid` make one run. */
  lemma ComposeRuns(s: State, a: nat, b: nat, mid: State)
    requires Valid(s) && Run(s, a).final == mid
    ensures Valid(mid)
    ensures Run(s, a + b) == Trace(Run(mid, b).final, Run(s, a).chunks + Run(mid, b).chunks)
  {
    RunAppend(s, a, b);
  }

  /** One firing frame followed by `n - 1` more. */
  lemma RunStep(s: State, n: nat)
    requires Valid(s) && n >= 1
    ensures var step := Tick(s, true);
            && Run(s, n).final == Run(step.state, n - 1).final
            && Run(s, n).chunks == ToSeq(step.chunk) + Run(step.state, n - 1).chunks
  {
  }

  /** A paused reader stays as it is and shows no chunk, however many frames
      fire. */
  lemma {:induction false} RunWhilePaused(s: State, n: nat)
    requires Valid(s) && !s.isPlaying
    ensures Run(s, n) == Trace(s, [])
    decreases n
  {
    if n > 0 {
      RunWhilePaused(s, n - 1);
    }
  }

  /** Reading the rest of the current page from word `w`: after
      `ChunksLeft` firing frames the chunks shown are the page's words from
      `w` on, each exactly once and in order, each chunk one to `wpf` words;
      only the word index has moved, and it is now at or past the page
      end. */
  lemma RunRestOfPage(s: State)
    requires Valid(s) && s.isPlaying
    ensures var page := CurrentPage(s);
            var t := Run(s, ChunksLeft(|page|, s.wordIndex, s.wordsPerFrame));
            && t.final == s.(wordIndex := t.final.wordIndex)
            && t.final.wordIndex >= |page|
            && Flatten(t.chunks) == page[Min(s.wordIndex, |page|)..]
            && ChunksSized(t.chunks, s.wordsPerFrame)
  {
    var n := ChunksLeft(|CurrentPage(s)|, s.wordIndex, s.wordsPerFrame);
    RestOfPageEndsAtPageEnd(s, n);
    RestOfPageShowsChunks(s, n);
    PageChunksCover(CurrentPage(s), s.wordIndex, s.wordsPerFrame);
  }

  /** Where reading the rest of a page leaves the reader: only the word
      index has moved, to the page end or past it. */
  lemma {:induction false} RestOfPageEndsAtPageEnd(s: State, n: nat)
    requires Valid(s) && s.isPlaying
    requires n == ChunksLeft(|CurrentPage(s)|, s.wordIndex, s.wordsPerFrame)
    ensures Run(s, n).final == s.(wordIndex := Run(s, n).final.wordIndex)
    ensures Run(s, n).final.wordIndex >= |CurrentPage(s)|
    decreases n
  {
    if s.wordIndex < |CurrentPage(s)| {
      var s1 := s.(wordIndex := s.wordIndex + s.wordsPerFrame);
      EmitFrame(s, n);
      RestOfPageEndsAtPageEnd(s1, n - 1);
    }
  }

  /** The chunks a page of words is shown in from word `w` on: `wpf` words
      at a time, the last chunk cut short at the page end. */
  function PageChunks(page: Page, w: nat, wpf: nat): seq<seq<string>>
    requires wpf >= 1
    decreases |page| - w
  {
    if w >= |page| then [] else [page[w..Min(w + wpf, |page|)]] + PageChunks(page, w + wpf, wpf)
  }

  /** The chunks of a page from word `w` on are that page's words from `w`
      on, each exactly once and in order, one to `wpf` words per chunk, and
      there are `ChunksLeft` of them. */
  lemma {:induction false} PageChunksCover(page: Page, w: nat, wpf: nat)
    requires wpf >= 1
    ensures Flatten(PageChunks(page, w, wpf)) == page[Min(w, |page|)..]
    ensures ChunksSized(PageChunks(page, w, wpf), wpf)
    ensures |PageChunks(page, w, wpf)| == ChunksLeft(|page|, w, wpf)
    decreases |page| - w
  {
    if w < |page| {
      PageChunksCover(page, w + wpf, wpf);
      PrependChunk(page, w, Min(w + wpf, |page|), wpf, PageChunks(page, w + wpf, wpf));
    }
  }

  /** What reading the rest of a page shows: the chunks of the current page
      from the cursor on. */
  lemma {:induction false} RestOfPageShowsChunks(s: State, n: nat)
    requires Valid(s) && s.isPlaying
    requires n == ChunksLeft(|CurrentPage(s)|, s.wordIndex, s.wordsPerFrame)
    ensures Run(s, n).chunks == PageChunks(CurrentPage(s), s.wordIndex, s.wordsPerFrame)
    decreases n
  {
    if s.wordIndex < |CurrentPage(s)| {
      var s1 := s.(wordIndex := s.wordIndex + s.wordsPerFrame);
      EmitFrame(s, n);
      RestOfPageShowsChunks(s1, n - 1);
    }
  }

  /** A chunk of one to `wpf` words from `w` followed by chunks that show
      the page from the chunk's end on shows the page from `w` on. */
  lemma PrependChunk(page: Page, w: nat, e: nat, wpf: nat, rest: seq<seq<string>>)
    requires w < e <= |page| && e - w <= wpf
    requires Flatten(rest) == page[e..] && ChunksSized(rest, wpf)
    ensures Flatten([page[w..e]] + rest) == page[w..]
    ensures ChunksSized([page[w..e]] + rest, wpf)
  {
    var c := page[w..e];
    FlattenCons(c, rest);
    assert page[w..] == c + page[e..];
    ChunksSizedAppend([c], rest, wpf);
  }

  lemma FlattenCons(c: seq<string>, rest: seq<seq<string>>)
    ensures Flatten([c] + rest) == c + Flatten(rest)
  {
    assert ([c] + rest)[0] == c;
    assert ([c] + rest)[1..] == rest;
  }

  /** A frame in the middle of a page shows the next chunk and moves the word
      index on by the chunk size; the frames after it continue from there. */
  lemma EmitFrame(s: State, n: nat)
    requires Valid(s) && s.isPlaying && s.wordIndex < |CurrentPage(s)| && n >= 1
    ensures var s1 := s.(wordIndex := s.wordIndex + s.wordsPerFrame);
            var c := CurrentPage(s)[s.wordIndex..Min(s.wordIndex + s.wordsPerFrame, |CurrentPage(s)|)];
            && Run(s, n).final == Run(s1, n - 1).final
            && Run(s, n).chunks == [c] + Run(s1, n - 1).chunks
  {
  }

  lemma ChunksSizedAppend(a: seq<seq<string>>, b: seq<seq<string>>, wpf: nat)
    requires ChunksSized(a, wpf) && ChunksSized(b, wpf)
    ensures ChunksSized(a + b, wpf)
  {
    forall i | 0 <= i < |a + b| ensures 1 <= |(a + b)[i]| <= wpf {
      if i >= |a| {
        assert (a + b)[i] == b[i - |a|];
      }
    }
  }

  /** The frame after a page is exhausted shows no new chunk; the frames
      after it continue from the start of the next page, or from the stopped
      reader on the last page. */
  lemma TurnPage(s: State, more: nat)
    requires Valid(s) && s.isPlaying && s.wordIndex >= |CurrentPage(s)|
    ensures s.pageIndex + 1 < |s.pages| ==>
              Run(s, 1 + more) == Run(s.(pageIndex := s.pageIndex + 1, wordIndex := 0), more)
    ensures s.pageIndex + 1 >= |s.pages| ==>
              Run(s, 1 + more) == Run(s.(isPlaying := false), more)
  {
  }

  lemma FlattenFrom(pages: seq<Page>, p: nat)
    requires p < |pages|
    ensures Flatten(pages[p..]) == pages[p] + Flatten(pages[p + 1..])
  {
    assert pages[p..][0] == pages[p];
    assert pages[p..][1..] == pages[p + 1..];
  }

  /** Playing from the start of page `p` to the end: after `FramesToEnd`
      firing frames playback has stopped on the last page, and the chunks
      shown, concatenated, are exactly the words of pages `p` onwards, none
      skipped and none repeated, each chunk one to `wpf` words. */
  lemma {:induction false} RunToEnd(s: State)
    requires Valid(s) && s.isPlaying && s.wordIndex == 0
    ensures var t := Run(s, FramesToEnd(s.pages, s.pageIndex, s.wordsPerFrame));
            && !t.final.isPlaying
            && t.final.pages == s.pages
            && t.final.pageIndex == |s.pages| - 1
            && Flatten(t.chunks) == Flatten(s.pages[s.pageIndex..])
            && ChunksSized(t.chunks, s.wordsPerFrame)
    decreases |s.pages| - s.pageIndex, 1
  {
    var p := s.pageIndex;
    var wpf := s.wordsPerFrame;
    var k := ChunksLeft(|CurrentPage(s)|, 0, wpf);
    var b := 1 + FramesAfter(s.pages, p, wpf);
    var t := Run(s, FramesToEnd(s.pages, p, wpf));
    var first := Run(s, k);
    var u := first.final;
    var second := Run(u, b);
    assert t.final == second.final && t.chunks == first.chunks + second.chunks by {
      assert FramesToEnd(s.pages, p, wpf) == k + b;
      RunAppend(s, k, b);
    }
    assert Flatten(first.chunks) == CurrentPage(s) && ChunksSized(first.chunks, wpf)
        && u == s.(wordIndex := u.wordIndex) && u.wordIndex >= |CurrentPage(s)| by {
      RunRestOfPage(s);
    }
    assert && !second.final.isPlaying
           && second.final.pages == s.pages
           && second.final.pageIndex == |s.pages| - 1
           && Flatten(second.chunks) == Flatten(s.pages[p + 1..])
           && ChunksSized(second.chunks, wpf) by {
      assert u.pages == s.pages && u.pageIndex == p && u.wordsPerFrame == wpf;
      FinishFromPageEnd(u, b);
    }
    assert Flatten(t.chunks) == CurrentPage(s) + Flatten(second.chunks) by {
      FlattenAppend(first.chunks, second.chunks);
    }
    assert Flatten(s.pages[p..]) == CurrentPage(s) + Flatten(s.pages[p + 1..]) by {
      FlattenFrom(s.pages, p);
    }
    assert ChunksSized(t.chunks, wpf) by {
      ChunksSizedAppend(first.chunks, second.chunks, wpf);
    }
  }

  /** The firing frames the pages after page `p` take to play out. */
  function FramesAfter(pages: seq<Page>, p: nat, wpf: nat): nat
    requires p < |pages| && wpf >= 1
  {
    if p + 1 < |pages| then FramesToEnd(pages, p + 1, wpf) else 0
  }

  /** Playback stops from any playing state, mid-page included (after a
      pause, a chunk-size change or a seek to the current page): after the
      rest of the current page, one frame to turn or stop, and `FramesToEnd`
      for each later page, the reader is stopped on the last page. */
  lemma PlaybackStops(s: State)
    requires Valid(s) && s.isPlaying
    ensures var page := CurrentPage(s);
            var t := Run(s, ChunksLeft(|page|, s.wordIndex, s.wordsPerFrame)
                            + (1 + FramesAfter(s.pages, s.pageIndex, s.wordsPerFrame)));
            && !t.final.isPlaying
            && t.final.pageIndex == |s.pages| - 1
  {
    var page := CurrentPage(s);
    var k := ChunksLeft(|page|, s.wordIndex, s.wordsPerFrame);
    var b := 1 + FramesAfter(s.pages, s.pageIndex, s.wordsPerFrame);
    var first := Run(s, k);
    var u := first.final;
    var rest := Run(u, b);
    assert u == s.(wordIndex := u.wordIndex) && u.wordIndex >= |page| by {
      RestOfPageEndsAtPageEnd(s, k);
    }
    assert !rest.final.isPlaying && rest.final.pageIndex == |s.pages| - 1 by {
      assert u.pages == s.pages && u.pageIndex == s.pageIndex && u.wordsPerFrame == s.wordsPerFrame;
      FinishFromPageEnd(u, b);
    }
    assert Run(s, k + b).final == rest.final by {
      ComposeRuns(s, k, b, u);
    }
  }

  /** From a used-up page, one frame turns the page (or stops) and the
      later pages' `FramesToEnd` frames play them out: playback ends stopped
      on the last page, having shown exactly the later pages' words. */
  lemma FinishFromPageEnd(u: State, n: nat)
    requires Valid(u) && u.isPlaying && u.wordIndex >= |CurrentPage(u)|
    requires n == 1 + FramesAfter(u.pages, u.pageIndex, u.wordsPerFrame)
    ensures var t := Run(u, n);
            && !t.final.isPlaying
            && t.final.pages == u.pages
            && t.final.pageIndex == |u.pages| - 1
            && Flatten(t.chunks) == Flatten(u.pages[u.pageIndex + 1..])
            && ChunksSized(t.chunks, u.wordsPerFrame)
    decreases |u.pages| - u.pageIndex, 0
  {
    var p := u.pageIndex;
    var more := n - 1;
    var t := Run(u, n);
    if p + 1 < |u.pages| {
      var next := u.(pageIndex := p + 1, wordIndex := 0);
      assert more == FramesToEnd(next.pages, next.pageIndex, next.wordsPerFrame);
      assert t == Run(next, more) by {
        TurnPage(u, more);
      }
      RunToEnd(next);
    } else {
      var stopped := u.(isPlaying := false);
      assert t == Trace(stopped, []) by {
        TurnPage(u, more);
        RunWhilePaused(stopped, more);
      }
      assert u.pages[p + 1..] == [];
    }
  }

  lemma MulAtLeast(d: nat, k: nat)
    requires k >= 1
    ensures d * k >= d
  {
    assert d * k == d + d * (k - 1);
  }

  /** Euclidean division is determined by any quotient and remainder that
      fit. */
  lemma DivUnique(n: nat, d: nat, q: nat, r: nat)
    requires d >= 1 && r < d && n == d * q + r
    ensures n / d == q
  {
    var q' := n / d;
    assert n == d * q' + n % d;
    if q' < q {
      MulAtLeast(d, q - q');
    } else if q' > q {
      MulAtLeast(d, q' - q);
    }
  }

  /** With `wpf` words per frame a page of `len` words takes
      `ceil(len / wpf)` firing frames to show. */
  lemma {:induction false} ChunksLeftIsCeiling(len: nat, w: nat, wpf: nat)
    requires wpf >= 1
    requires w <= len
    ensures ChunksLeft(len, w, wpf) == (len - w + wpf - 1) / wpf
    decreases len - w
  {
    if w < len {
      if w + wpf <= len {
        ChunksLeftIsCeiling(len, w + wpf, wpf);
        var x := len - (w + wpf) + wpf - 1;
        var q := x / wpf;
        assert x == wpf * q + x % wpf;
        assert len - w + wpf - 1 == wpf * (q + 1) + x % wpf;
        DivUnique(len - w + wpf - 1, wpf, q + 1, x % wpf);
      } else {
        DivUnique(len - w + wpf - 1, wpf, 1, len - w - 1);
      }
    } else {
      DivUnique(wpf - 1, wpf, 0, wpf - 1);
    }
  }

  /** Everything a freshly ingested document holds is shown: after a
      successful ingest, playing for `FramesToEnd` firing frames shows every
      word of every kept page once, in page order, and stops. */
  lemma IngestThenPlay(s: State, ex: Extraction)
    requires s.wordsPerFrame >= 1
    requires BuildPages(ex) != []
    ensures var r := Ingest(s, ex);
            var t := Run(r, FramesToEnd(r.pages, 0, r.wordsPerFrame));
            && !t.final.isPlaying
            && Flatten(t.chunks) == Flatten(BuildPages(ex))
  {
    var r := Ingest(s, ex);
    RunToEnd(r);
    assert r.pages[0..] == r.pages;
  }
}
