/** A worked two-page example, one word per frame: the page turn costs a
    frame that shows no new chunk, so seven firing frames show five words
    and then stop. */
module Walkthrough {
  import opened Wrappers
  import opened Reader
  import opened Playback

  function Sample(): State {
    State([["Upload", "a", "document"], ["to", "begin"]], 0, 0, 1, true)
  }

  lemma FirstPageFrames()
    ensures Run(Sample(), 4) == Trace(Sample().(pageIndex := 1, wordIndex := 0), [["Upload"], ["a"], ["document"]])
  {
    var s := Sample();
    var turned := s.(pageIndex := 1, wordIndex := 0);
    assert Run(s.(wordIndex := 3), 1) == Trace(turned, []);
    assert ["Upload", "a", "document"][2..3] == ["document"];
    assert Tick(s.(wordIndex := 2), true) == Step(s.(wordIndex := 3), Some(["document"]));
    assert Run(s.(wordIndex := 2), 2) == Trace(turned, [["document"]]);
    assert ["Upload", "a", "document"][1..2] == ["a"];
    assert Tick(s.(wordIndex := 1), true) == Step(s.(wordIndex := 2), Some(["a"]));
    assert Run(s.(wordIndex := 1), 3) == Trace(turned, [["a"], ["document"]]);
    assert ["Upload", "a", "document"][0..1] == ["Upload"];
    assert Tick(s, true) == Step(s.(wordIndex := 1), Some(["Upload"]));
  }

  lemma SecondPageFrames()
    ensures Run(Sample().(pageIndex := 1, wordIndex := 0), 3)
         == Trace(Sample().(pageIndex := 1, wordIndex := 2, isPlaying := false), [["to"], ["begin"]])
  {
    var s := Sample();
    var done := s.(pageIndex := 1, wordIndex := 2, isPlaying := false);
    assert Run(s.(pageIndex := 1, wordIndex := 2), 1) == Trace(done, []);
    var p1 := s.(pageIndex := 1, wordIndex := 1);
    assert ["to", "begin"][1..2] == ["begin"];
    assert Tick(p1, true) == Step(s.(pageIndex := 1, wordIndex := 2), Some(["begin"]));
    assert Run(p1, 2) == Trace(done, [["begin"]]);
    var p0 := s.(pageIndex := 1, wordIndex := 0);
    assert ["to", "begin"][0..1] == ["to"];
    assert Tick(p0, true) == Step(p1, Some(["to"]));
  }

  /** Seven firing frames over a two-page document at one word per frame:
      three words, a silent page turn, two words, and a final frame that
      stops playback with the cursor past the last word. */
  lemma {:induction false} TwoPageWalkthrough()
    ensures var t := Run(Sample(), 7);
            && t.chunks == [["Upload"], ["a"], ["document"], ["to"], ["begin"]]
            && t.final == Sample().(pageIndex := 1, wordIndex := 2, isPlaying := false)
  {
    FirstPageFrames();
    SecondPageFrames();
    ComposeRuns(Sample(), 4, 3, Sample().(pageIndex := 1, wordIndex := 0));
  }
}
