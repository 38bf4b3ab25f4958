# RSVP speed reader: reading engine model

A Dafny model of the reading engine of the RSVP speed reader (`src/lib.rs`).
RSVP means rapid serial visual presentation. The reader shows a PDF's text a
few words at a time, at a set pace.

The engine has four pieces, all pure here:

- **Page building.** The PDF parser gives, for each page number, the page's
  text or a failure. The page numbers are sorted. Each page's text is split
  on whitespace, as Rust's `split_whitespace` does. Pages that failed to
  extract or hold no word are dropped (`PageBuilder`).
- **Ingestion.** If any page survives, the surviving pages replace the page
  list. The cursor goes back to (page 0, word 0) and playback starts. If no
  page survives, or the document did not load at all, nothing changes
  (`Reader.Ingest`, `Reader.ProcessUpload`).
- **The tick system.** On each frame where the pacing timer fires, the
  reader does one of three things. It shows the next chunk of at most
  `words_per_frame` words. Or, if the page is used up, it turns to the next
  page and writes no new text (the previous chunk stays on screen). Or, on
  the last page, it stops playing (`Reader.Tick`).
- **Controls.** The page slider takes a 1-based page number. There is also
  the play/pause button, the words-per-frame slider (1 to 7) and the default
  state ("Upload a PDF to begin.", paused, one word per frame).

The structural invariant is `Reader.Valid`:

- there is at least one page;
- every page is a non-empty list of words, each non-empty and free of
  whitespace;
- the page index is in range;
- at least one word is shown per frame.

Every transition establishes or preserves it. `Playback` runs the tick system
for many firing frames. It proves that, with a fixed chunk size, the chunks
shown are exactly the document's words, each once and in order. It also
proves that playback stops, from any playing state, after a number of
frames fixed by the page lengths, the words per frame and the cursor.

Behaviour of the code worth knowing when reading the model:

- The word index grows by the full `words_per_frame` after each chunk (line
  258). Only the slice end is clamped (line 251), so the index can pass the
  page end.
- A frame that turns the page writes no new text (lines 260-262). The first
  chunk of the next page appears on the following firing frame, so a page
  costs one more firing frame than it has chunks (`Playback.FramesToEnd`,
  `Walkthrough.TwoPageWalkthrough`).
- The placeholder page is "Upload a PDF to begin." (line 52).
- Seeking has no out-of-range error. The slider only offers 1 to the page
  count. The slider also reports a change only when the value differs from
  the current page, so choosing the current page does not rewind it.
- The reader sorts the page numbers itself (lines 202-203). It does not rely
  on the parser's order.
- The chunk size has no validation error. The slider keeps it between 1 and
  7.

## Model

| member | source | states |
|---|---|---|
| Tokenizer.SplitWhitespace | src/lib.rs:207-210 | every word produced is non-empty and contains no whitespace character |
| Tokenizer.SplitKeepsOrder | src/lib.rs:207-210 | the words written end to end are exactly the text's non-whitespace characters in their original order: splitting loses only whitespace and reorders nothing |
| Tokenizer.SplitEmptyIff | src/lib.rs:207-212 | a page's text yields no word exactly when it is empty or all whitespace |
| Tokenizer.SplitJoin | src/lib.rs:252 | joining display words with single spaces and splitting on whitespace gives back the same words |
| Tokenizer.SplitAtWhitespace | src/lib.rs:207-210 | words break at whitespace: splitting a text around any whitespace character gives the words before it followed by the words after it, so no word spans whitespace |
| Tokenizer.SplitWordThen | src/lib.rs:207-210 | a whitespace-free run followed by whitespace or the end of the text comes out as one whole word, followed by the words of the remainder, so a word is never cut inside a run |
| Tokenizer.JoinWords | src/lib.rs:252 | the shown text starts with the chunk's first word, followed by a single space when more words come |
| Tokenizer.JoinKeepsWords | src/lib.rs:252 | joining display words adds only whitespace: the shown text's non-whitespace characters are the words' characters in order |
| Tokenizer.JoinLength | src/lib.rs:252 | the joined text is one character longer than the words for each gap between two neighbouring words |
| Tokenizer.JoinOnlySpaces | src/lib.rs:252 | every whitespace character of the text joined from display words is a plain space, so with `JoinLength` and `SplitJoin` exactly one space separates neighbouring words and none is at either end |
| PageBuilder.SortedKeys | src/lib.rs:202-203 | the page numbers come out strictly ascending, each page number exactly once |
| PageBuilder.CollectPages | src/lib.rs:205-216 | every collected page is a non-empty list of display words, and there are at most as many pages as page numbers visited |
| PageBuilder.Kept | src/lib.rs:205-216 | the page numbers kept are exactly those visited whose extraction succeeded with at least one word, in visiting order (ascending when the visit was) |
| PageBuilder.CollectPagesFollowsKept | src/lib.rs:205-216 | the i-th collected page is the split text of the i-th kept page number, so survivors keep their relative order |
| PageBuilder.BuildPages | src/lib.rs:200-216 | every built page is a non-empty list of display words |
| PageBuilder.BuildPagesCharacterised | src/lib.rs:200-216 | the built pages are, in ascending page-number order, the words of exactly those pages whose extraction succeeded and yielded a word |
| PageBuilder.BuildPagesEmptyIff | src/lib.rs:205-218 | no page is built exactly when every page failed to extract or holds only whitespace |
| Reader.Default | src/lib.rs:49-67 | the default state satisfies the invariant; it is paused at (0,0) with one word per frame and one page reading "Upload a PDF to begin." |
| Reader.Ingest | src/lib.rs:200-226 | with no surviving page the state is unchanged; otherwise the pages are replaced, the cursor is (0,0), playback is on and the chunk size is kept; the invariant is established |
| Reader.ProcessUpload | src/lib.rs:191-231 | a document that fails to load, or yields no page, leaves the state unchanged; one that yields pages replaces the pages, rewinds to (0,0), starts playing and keeps the chunk size; the invariant is preserved |
| Reader.Tick | src/lib.rs:233-267 | paused, empty or non-firing frames change nothing and write no new text; mid-page, the chunk is the 1 to wpf words from the cursor, ending at the page end when shorter, and the word index grows by exactly wpf; on an exhausted page the reader turns to word 0 of the next page writing no new text (the previous chunk stays on screen), or on the last page stops with the cursor unchanged; the invariant is preserved |
| Reader.TotalPages | src/lib.rs:131 | the slider's page count is the number of pages when there are any, and 1 when there are none (`max(1)`) |
| Reader.Seek | src/lib.rs:128-136 | slider value v selects page v-1, a valid index; a new value rewinds to word 0, the current value changes nothing; pages, chunk size and play state are untouched; the invariant is preserved |
| Reader.TogglePlaying | src/lib.rs:122-124 | the play state flips and nothing else changes |
| Reader.SetWordsPerFrame | src/lib.rs:151-152 | the chunk size becomes the chosen value in 1 to 7 and nothing else changes |
| Reader.ShownTextSplitsIntoChunk | src/lib.rs:250-256 | the text a frame writes (`Step.Display`, the chunk joined with spaces) splits back into exactly the chunk's words |
| Playback.Run | src/lib.rs:238-267 | a run of firing frames preserves the invariant and never changes the pages or the chunk size |
| Playback.RunWhilePaused | src/lib.rs:238-240 | a paused reader stays unchanged and shows no chunk however many frames fire |
| Playback.RunRestOfPage | src/lib.rs:250-258 | reading a page from word w shows the page's words from w on, each once and in order, in chunks of 1 to wpf words; only the word index moves, ending at or past the page end |
| Playback.PageChunksCover | src/lib.rs:250-258 | the chunks of a page from word w, wpf at a time with the last cut at the page end, number `ChunksLeft`, hold 1 to wpf words each, and written end to end give exactly the page's words from w on |
| Playback.RestOfPageShowsChunks | src/lib.rs:247-258 | reading the rest of a page shows exactly those chunks, one per firing frame |
| Playback.RestOfPageEndsAtPageEnd | src/lib.rs:247-258 | after the rest of a page is shown, only the word index has moved, and it is at or past the page end |
| Playback.RunAppend | src/lib.rs:238-267 | running a then b firing frames is running a + b frames: same final state, chunks in order |
| Playback.TurnPage | src/lib.rs:259-266 | once a page is used up, the next firing frame shows no new chunk and the run continues from word 0 of the next page, or from the stopped reader on the last page |
| Playback.PlaybackStops | src/lib.rs:247-266 | from any playing state, mid-page included, playback has stopped on the last page after the rest of the current page, one turning frame and `FramesToEnd` for each later page |
| Playback.FinishFromPageEnd | src/lib.rs:259-266 | from a used-up page, one turning frame and the later pages' frames stop playback on the last page, showing exactly the later pages' words in chunks of at most the words per frame, with the pages unchanged |
| Playback.RunToEnd | src/lib.rs:247-266 | from the start of a page, after `FramesToEnd` firing frames playback has stopped on the last page, and the chunks shown are exactly the words of that page and all later pages, none skipped or repeated |
| Playback.ChunksLeftIsCeiling | src/lib.rs:251-258 | a page of len words takes ceil(len / wpf) word-showing frames |
| Playback.IngestThenPlay | src/lib.rs:218-266 | after a successful ingest, playing to the end shows every word of every kept page exactly once, in page order, and stops |
| Walkthrough.TwoPageWalkthrough | src/lib.rs:247-266 | on pages "Upload a document" and "to begin" at one word per frame, seven firing frames show the five words one by one, with a silent page turn, then stop |

## Left out

- The Bevy app wiring, camera and text spawning, and font loading and selection, including `AVAILABLE_FONTS` and the text size. These are rendering and asset I/O.
- The egui widgets themselves: layout, labels and the font combo box. Only what the play button and the two sliders do to the state is modelled.
- The global upload mailbox (`UPLOADED_FILE_QUEUE`, `pass_file_to_bevy`). It is a concurrency hand-off. An upload arrives in `ProcessUpload` already taken from the mailbox.
- PDF parsing (`Document::load_from`, `extract_text`). This is a foreign library. Its result is an input: `None` for a load failure, or a map from page number to `Some(text)` or to `None` when extraction failed.
- The pacing timer: the `f32` words-per-minute value, the interval `60 / wpm * words_per_frame`, and Bevy's `Timer`. Each frame's timer outcome is the boolean `fired`. The words-per-minute slider is left out with it.
- The `f32` page progress bar. It is read-only display arithmetic.
- Logging (`info!`, `error!`).
- Reader.Tick: `usize` overflow of `current_word_index + words_per_frame` is not modelled. Indices are unbounded naturals; the sum stays below the page length plus 7.
- Reader.Tick: an out-of-range page index, which would panic in the source, is excluded by the precondition, not modelled as a panic. `Reader.Valid` rules it out for every reachable state.
- Playback.RunToEnd: it holds the chunk size fixed while playing. Changing words per frame mid-page is allowed by the model but not covered by this lemma.
