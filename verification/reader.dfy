/** The reader state of `RsvpState` and the transitions the core applies to
    it: the default state, ingesting a loaded document, one frame of the tick
    system, the page slider, the play/pause button and the words-per-frame
    slider. The pacing timer is abstracted into a `fired` flag. */
module Reader {
  import opened Wrappers
  import opened Tokenizer
  import opened PageBuilder

  /** The fields of `RsvpState` the reading engine uses (lines 30-47). */
  datatype State = State(
    pages: seq<Page>,
    pageIndex: nat,
    wordIndex: nat,
    wordsPerFrame: nat,
    isPlaying: bool)

  /** The outcome of one frame: the new state and the chunk of words shown on
      this frame, if any. */
  datatype Step = Step(state: State, chunk: Option<seq<string>>) {
    /** The text written into the reader's text entity (line 252). */
    function Display(): Option<string> {
      match chunk
      case None => None
      case Some(c) => Some(JoinWords(c))
    }
  }

  /** The structural invariant: at least one page, every page a non-empty
      list of display words, the page index in range, and at least one word
      per frame. */
  predicate Valid(s: State) {
    && |s.pages| > 0
    && AllPages(s.pages)
    && s.pageIndex < |s.pages|
    && s.wordsPerFrame >= 1
  }

  /** The page the cursor is on. */
  function CurrentPage(s: State): Page
    requires s.pageIndex < |s.pages|
  {
    s.pages[s.pageIndex]
  }

  /** `RsvpState::default()` (lines 49-67): one placeholder page, cursor at
      the start, paused, one word per frame. */
  function Default(): (s: State)
    ensures Valid(s)
    ensures !s.isPlaying && s.pageIndex == 0 && s.wordIndex == 0 && s.wordsPerFrame == 1
    ensures |s.pages| == 1 && JoinWords(s.pages[0]) == "Upload a PDF to begin."
  {
    State([["Upload", "a", "PDF", "to", "begin."]], 0, 0, 1, false)
  }

  /** Lines 200-226 once the document has loaded: build the page list; if it
      has any page, replace the pages, rewind to the first word of the first
      page and start playing, otherwise leave the state alone. */
  function Ingest(s: State, ex: Extraction): (r: State)
    ensures BuildPages(ex) == [] ==> r == s
    ensures BuildPages(ex) != [] ==>
              && r.pages == BuildPages(ex)
              && r.pageIndex == 0 && r.wordIndex == 0
              && r.isPlaying
              && r.wordsPerFrame == s.wordsPerFrame
    ensures Valid(s) ==> Valid(r)
    ensures BuildPages(ex) != [] && s.wordsPerFrame >= 1 ==> Valid(r)
  {
    var newPages := BuildPages(ex);
    if newPages != [] then
      s.(pages := newPages, pageIndex := 0, wordIndex := 0, isPlaying := true)
    else
      s
  }

  /** `file_listener_system` for one taken upload (lines 191-231): `None`
      stands for a document the PDF parser could not load, which is logged
      and changes nothing. */
  function ProcessUpload(s: State, loaded: Option<Extraction>): (r: State)
    ensures loaded.None? ==> r == s
    ensures loaded.Some? && BuildPages(loaded.value) == [] ==> r == s
    ensures loaded.Some? && BuildPages(loaded.value) != [] ==>
              && r.pages == BuildPages(loaded.value)
              && r.pageIndex == 0 && r.wordIndex == 0
              && r.isPlaying
              && r.wordsPerFrame == s.wordsPerFrame
    ensures Valid(s) ==> Valid(r)
  {
    match loaded
    case None => s
    case Some(ex) => Ingest(s, ex)
  }

  /** `rsvp_tick_system` for one frame (lines 233-267). `fired` says whether
      the pacing timer finished an interval on this frame. The page index is
      only looked up on a firing frame while playing, and must then be in
      range (`rsvp_tick_system` indexes `rsvp.pages[rsvp.current_page_index]`
      at line 248 without a check and would panic). */
  function Tick(s: State, fired: bool): (r: Step)
    requires fired && s.isPlaying && s.pages != [] ==> s.pageIndex < |s.pages|
    // A paused reader, an empty page list or a frame without a timer event
    // changes nothing and writes no new text.
    ensures !fired || !s.isPlaying || s.pages == [] ==> r == Step(s, None)
    // Mid-page: the next words from the cursor are shown, as many as fit up
    // to the chunk size, and the word index moves on by the full chunk size.
    ensures fired && s.isPlaying && s.pages != [] && s.wordIndex < |CurrentPage(s)| ==>
              && r.chunk.Some?
              && (s.wordsPerFrame >= 1 ==> 1 <= |r.chunk.value|)
              && s.wordIndex + |r.chunk.value| <= |CurrentPage(s)|
              && r.chunk.value == CurrentPage(s)[s.wordIndex .. s.wordIndex + |r.chunk.value|]
              && (|r.chunk.value| == s.wordsPerFrame || s.wordIndex + |r.chunk.value| == |CurrentPage(s)|)
              && |r.chunk.value| <= s.wordsPerFrame
              && r.state == s.(wordIndex := s.wordIndex + s.wordsPerFrame)
    // Page exhausted: turn to the next page without writing new text (the
    // previous chunk stays on screen), or stop playing on the last page with
    // the cursor where it is.
    ensures fired && s.isPlaying && s.pages != [] && s.wordIndex >= |CurrentPage(s)| ==>
              && r.chunk.None?
              && (s.pageIndex + 1 < |s.pages| ==> r.state == s.(pageIndex := s.pageIndex + 1, wordIndex := 0))
              && (s.pageIndex + 1 >= |s.pages| ==> r.state == s.(isPlaying := false))
    ensures Valid(s) ==> Valid(r.state)
  {
    if !s.isPlaying || s.pages == [] then
      Step(s, None)
    else if !fired then
      Step(s, None)
    else
      var page := s.pages[s.pageIndex];
      if s.wordIndex < |page| then
        var end := Min(s.wordIndex + s.wordsPerFrame, |page|);
        Step(s.(wordIndex := s.wordIndex + s.wordsPerFrame), Some(page[s.wordIndex..end]))
      else if s.pageIndex + 1 < |s.pages| then
        Step(s.(pageIndex := s.pageIndex + 1, wordIndex := 0), None)
      else
        Step(s.(isPlaying := false), None)
  }

  /** The number of pages the slider offers (line 131). */
  function TotalPages(s: State): (n: nat)
    ensures n >= 1 && n >= |s.pages|
    ensures |s.pages| > 0 ==> n == |s.pages|
    ensures |s.pages| == 0 ==> n == 1
  {
    if |s.pages| > 1 then |s.pages| else 1
  }

  /** The page slider (lines 128-136): the slider shows the 1-based page
      number and only reports a change when the chosen value differs from
      it; a change moves to the start of that page. */
  function Seek(s: State, value: nat): (r: State)
    requires 1 <= value <= TotalPages(s)
    ensures r.pageIndex == value - 1
    ensures r.pages == s.pages && r.isPlaying == s.isPlaying && r.wordsPerFrame == s.wordsPerFrame
    ensures value != s.pageIndex + 1 ==> r.wordIndex == 0
    ensures value == s.pageIndex + 1 ==> r == s
    ensures |s.pages| > 0 ==> r.pageIndex < |s.pages|
    ensures Valid(s) ==> Valid(r)
  {
    if value != s.pageIndex + 1 then
      s.(pageIndex := value - 1, wordIndex := 0)
    else
      s
  }

  /** The play/pause button (lines 122-124). */
  function TogglePlaying(s: State): (r: State)
    ensures r.isPlaying != s.isPlaying
    ensures r.(isPlaying := s.isPlaying) == s
    ensures Valid(s) ==> Valid(r)
  {
    s.(isPlaying := !s.isPlaying)
  }

  /** The words-per-frame slider (lines 151-152), whose range is 1 to 7. */
  function SetWordsPerFrame(s: State, n: nat): (r: State)
    requires 1 <= n <= 7
    ensures r.wordsPerFrame == n
    ensures r.(wordsPerFrame := s.wordsPerFrame) == s
    ensures Valid(s) ==> Valid(r)
  {
    s.(wordsPerFrame := n)
  }

  /** The text shown on any frame is exactly the chunk's words again when
      split on whitespace: nothing is merged or split by the display. */
  lemma ShownTextSplitsIntoChunk(s: State, fired: bool)
    requires Valid(s)
    ensures var r := Tick(s, fired);
            r.chunk.Some? ==> r.Display().Some? && SplitWhitespace(r.Display().value) == r.chunk.value
  {
    var r := Tick(s, fired);
    if r.chunk.Some? {
      var page := CurrentPage(s);
      assert IsPage(page);
      assert AllWords(r.chunk.value) by {
        forall i | 0 <= i < |r.chunk.value| ensures IsWord(r.chunk.value[i]) {
          assert r.chunk.value[i] == page[s.wordIndex + i];
        }
      }
      SplitJoin(r.chunk.value);
    }
  }
}
