/** Building the page list from what the PDF parser extracted: page numbers
    in ascending order, each page's text split into words, and pages whose
    extraction failed or that hold no word dropped. */
module PageBuilder {
  import opened Wrappers
  import opened Tokenizer

  /** The words of one page, in reading order. */
  type Page = seq<string>

  /** What the PDF parser yields for a loaded document: every page number it
      knows, mapped to the page's extracted text, or to `None` where text
      extraction failed for that page. */
  type Extraction = map<nat, Option<string>>

  /** A page as the reader keeps it: at least one word, every word a display
      word. */
  predicate IsPage(p: Page) {
    |p| > 0 && AllWords(p)
  }

  predicate AllPages(ps: seq<Page>) {
    forall i :: 0 <= i < |ps| ==> IsPage(ps[i])
  }

  predicate StrictlyIncreasing(ks: seq<nat>) {
    forall i, j :: 0 <= i < j < |ks| ==> ks[i] < ks[j]
  }

  lemma ConsIncreasing(x: nat, rest: seq<nat>)
    requires StrictlyIncreasing(rest)
    requires forall k :: k in rest ==> x < k
    ensures StrictlyIncreasing([x] + rest)
  {
    var r := [x] + rest;
    forall i, j | 0 <= i < j < |r| ensures r[i] < r[j] {
      assert r[j] == rest[j - 1] && rest[j - 1] in rest;
      if i > 0 {
        assert r[i] == rest[i - 1];
      }
    }
  }

  /** `m` is the smallest number of `ks`. */
  predicate IsLeast(m: nat, ks: set<nat>) {
    m in ks && forall k :: k in ks ==> m <= k
  }

  lemma MinExists(ks: set<nat>)
    requires ks != {}
    ensures exists m :: IsLeast(m, ks)
    decreases ks
  {
    var x :| x in ks;
    var rest := ks - {x};
    if rest == {} {
      assert ks == {x};
      assert IsLeast(x, ks);
    } else {
      MinExists(rest);
      var m :| IsLeast(m, rest);
      assert ks == rest + {x};
      LeastOfInsert(x, m, rest);
    }
  }

  lemma LeastOfInsert(x: nat, m: nat, rest: set<nat>)
    requires IsLeast(m, rest)
    ensures IsLeast(if x < m then x else m, rest + {x})
  {
  }

  /** The smallest page number of a non-empty set. */
  function MinKey(ks: set<nat>): (m: nat)
    requires ks != {}
    ensures m in ks && forall k :: k in ks ==> m <= k
  {
    MinExists(ks);
    var m :| IsLeast(m, ks); m
  }

  /** The page numbers, collected and sorted (lines 202-203). */
  function SortedKeys(ks: set<nat>): (r: seq<nat>)
    ensures StrictlyIncreasing(r)
    ensures forall k :: k in r <==> k in ks
    decreases ks
  {
    if ks == {} then []
    else
      var m := MinKey(ks);
      [m] + SortedKeys(ks - {m})
  }

  /** Page `k` contributes a page: its extraction succeeded and yielded at
      least one word. */
  predicate Survives(ex: Extraction, k: nat) {
    k in ex && ex[k].Some? && SplitWhitespace(ex[k].value) != []
  }

  function WordsOf(ex: Extraction, k: nat): (p: Page)
    requires Survives(ex, k)
    ensures IsPage(p)
  {
    SplitWhitespace(ex[k].value)
  }

  /** The loop of lines 205-216 over the page numbers in `order`: each
      page's text is split, and the page is pushed when extraction succeeded
      and the word list is non-empty. */
  function CollectPages(order: seq<nat>, ex: Extraction): (pages: seq<Page>)
    ensures AllPages(pages)
    ensures |pages| <= |order|
  {
    if order == [] then []
    else
      var rest := CollectPages(order[1..], ex);
      if order[0] in ex then
        match ex[order[0]]
        case None => rest
        case Some(text) =>
          var words := SplitWhitespace(text);
          if words != [] then [words] + rest else rest
      else rest
  }

  /** The new page list built from one loaded document. */
  function BuildPages(ex: Extraction): (pages: seq<Page>)
    ensures AllPages(pages)
  {
    CollectPages(SortedKeys(ex.Keys), ex)
  }

  /** The page numbers of `order` that contribute a page, in the order of
      `order`. */
  function Kept(order: seq<nat>, ex: Extraction): (r: seq<nat>)
    ensures forall k :: k in r <==> k in order && Survives(ex, k)
    ensures StrictlyIncreasing(order) ==> StrictlyIncreasing(r)
  {
    if order == [] then []
    else
      var rest := Kept(order[1..], ex);
      KeptStep(order, rest);
      if Survives(ex, order[0]) then [order[0]] + rest else rest
  }

  /** One step of the filter keeps the order: when `order` ascends, so does
      its tail, and its head is below every number kept from the tail. */
  lemma KeptStep(order: seq<nat>, rest: seq<nat>)
    requires order != []
    requires forall k :: k in rest ==> k in order[1..]
    requires StrictlyIncreasing(order[1..]) ==> StrictlyIncreasing(rest)
    ensures forall k :: k in order <==> k == order[0] || k in order[1..]
    ensures StrictlyIncreasing(order) ==> StrictlyIncreasing(rest) && StrictlyIncreasing([order[0]] + rest)
  {
    assert order == [order[0]] + order[1..];
    if StrictlyIncreasing(order) {
      forall k | k in rest ensures order[0] < k {
        var j :| 0 <= j < |order[1..]| && order[1..][j] == k;
        assert order[j + 1] == k;
      }
      ConsIncreasing(order[0], rest);
    }
  }

  /** The page numbers that contribute a page, ascending. */
  function SurvivingPageNumbers(ex: Extraction): seq<nat> {
    Kept(SortedKeys(ex.Keys), ex)
  }

  /** Each collected page is the split text of the corresponding kept page
      number, so the pages come out in the order of `order` with only the
      failed and empty ones removed. */
  lemma {:induction false} CollectPagesFollowsKept(order: seq<nat>, ex: Extraction)
    ensures |CollectPages(order, ex)| == |Kept(order, ex)|
    ensures forall i :: 0 <= i < |Kept(order, ex)| ==>
              Survives(ex, Kept(order, ex)[i]) &&
              CollectPages(order, ex)[i] == WordsOf(ex, Kept(order, ex)[i])
  {
    if order != [] {
      CollectPagesFollowsKept(order[1..], ex);
      var pages := CollectPages(order, ex);
      var kept := Kept(order, ex);
      var pagesRest := CollectPages(order[1..], ex);
      var keptRest := Kept(order[1..], ex);
      if Survives(ex, order[0]) {
        assert pages == [WordsOf(ex, order[0])] + pagesRest;
        assert kept == [order[0]] + keptRest;
        forall i | 0 <= i < |kept|
          ensures Survives(ex, kept[i]) && pages[i] == WordsOf(ex, kept[i])
        {
          if i > 0 {
            assert kept[i] == keptRest[i - 1];
            assert pages[i] == pagesRest[i - 1];
          }
        }
      } else {
        assert pages == pagesRest;
        assert kept == keptRest;
      }
    }
  }

  /** What ingestion builds, characterised without reference to the loop:
      one page per page number whose extraction succeeded with at least one
      word, in ascending page-number order, holding exactly that page's
      words. */
  lemma BuildPagesCharacterised(ex: Extraction)
    ensures var nums := SurvivingPageNumbers(ex);
            && StrictlyIncreasing(nums)
            && (forall k :: k in nums <==> Survives(ex, k))
            && |BuildPages(ex)| == |nums|
            && forall i :: 0 <= i < |nums| ==> BuildPages(ex)[i] == WordsOf(ex, nums[i])
  {
    CollectPagesFollowsKept(SortedKeys(ex.Keys), ex);
  }

  /** Ingestion finds no text exactly when no page survives: every page
      failed to extract or is empty or whitespace only. */
  lemma BuildPagesEmptyIff(ex: Extraction)
    ensures BuildPages(ex) == [] <==>
            forall k :: k in ex ==>
              (ex[k].None? || forall i :: 0 <= i < |ex[k].value| ==> IsWhitespace(ex[k].value[i]))
  {
    BuildPagesCharacterised(ex);
    var nums := SurvivingPageNumbers(ex);
    forall k | k in ex && ex[k].Some?
      ensures Survives(ex, k) <==> !(forall i :: 0 <= i < |ex[k].value| ==> IsWhitespace(ex[k].value[i]))
    {
      SplitEmptyIff(ex[k].value);
    }
    if BuildPages(ex) != [] {
      assert nums[0] in nums;
    } else {
      assert forall k :: k !in nums;
    }
  }
}
