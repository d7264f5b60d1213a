/** `extractPageContent`: choosing the text of the active page to process.
    The page is abstract: the rendered text of its first `article` and
    first `main` element when present, and of its `p`/`h1`..`h6` elements
    in document order. */
module Extraction {
  import opened Wrappers
  import opened Seqs
  import opened Errors

  datatype Page = Page(article: Option<string>, main: Option<string>, blocks: seq<string>)

  /** Blocks must be longer than this many UTF-16 code units to be kept. */
  const MinBlockLength := 50

  /** The blocks are joined with one blank line between them. */
  const BlockSeparator := "\n\n"

  /** JavaScript's `length`: characters outside the Basic Multilingual
      Plane take two UTF-16 code units. */
  function Utf16Length(s: string): (n: nat)
    ensures |s| <= n <= 2 * |s|
    ensures (forall k :: 0 <= k < |s| ==> s[k] as int < 0x1_0000) ==> n == |s|
    ensures (forall k :: 0 <= k < |s| ==> s[k] as int >= 0x1_0000) ==> n == 2 * |s|
  {
    if s == [] then 0
    else (if s[0] as int >= 0x1_0000 then 2 else 1) + Utf16Length(s[1..])
  }

  /** Code units add up over concatenation. */
  lemma {:induction false} Utf16LengthAppend(a: string, b: string)
    ensures Utf16Length(a + b) == Utf16Length(a) + Utf16Length(b)
  {
    if a != [] {
      var unit := if a[0] as int >= 0x1_0000 then 2 else 1;
      assert (a + b)[0] == a[0] && (a + b)[1..] == a[1..] + b;
      Utf16LengthAppend(a[1..], b);
      assert Utf16Length(a + b) == unit + Utf16Length(a[1..] + b);
      assert Utf16Length(a) == unit + Utf16Length(a[1..]);
    } else {
      assert a + b == b;
    }
  }

  predicate IsLongBlock(text: string) {
    Utf16Length(text) > MinBlockLength
  }

  /** The blocks long enough to keep, in document order. */
  function LongBlocks(blocks: seq<string>): (kept: seq<string>)
    ensures forall b :: b in kept <==> b in blocks && IsLongBlock(b)
    ensures IsSubsequence(kept, blocks)
    ensures forall b :: multiset(kept)[b] == if IsLongBlock(b) then multiset(blocks)[b] else 0
  {
    FilterOrder(blocks, IsLongBlock);
    FilterCounts(blocks, IsLongBlock);
    Filter(blocks, IsLongBlock)
  }

  /** Every kept block has text in it. */
  lemma LongBlocksNonEmpty(blocks: seq<string>)
    ensures forall i :: 0 <= i < |LongBlocks(blocks)| ==> LongBlocks(blocks)[i] != ""
  {
    var kept := LongBlocks(blocks);
    assert forall i :: 0 <= i < |kept| ==> kept[i] in kept && Utf16Length(kept[i]) <= 2 * |kept[i]|;
  }

  /** The text made of the long blocks, joined by blank lines; it is empty
      exactly when no block is long. */
  function BlockText(blocks: seq<string>): (text: string)
    ensures text == "" <==> forall b :: b in blocks ==> !IsLongBlock(b)
    ensures text == "" <==> LongBlocks(blocks) == []
  {
    LongBlocksNonEmpty(blocks);
    Join(LongBlocks(blocks), BlockSeparator)
  }

  /** `extractPageContent`: the article's text if there is an article,
      otherwise the main element's text if there is one, otherwise the long
      blocks joined by blank lines; an empty join is an error. An article or
      main element is used even when its text is empty. */
  function Extract(page: Page): (r: Result<string, Error>)
    ensures page.article.Some? ==> r == Success(page.article.value)
    ensures page.article.None? && page.main.Some? ==> r == Success(page.main.value)
    ensures page.article.None? && page.main.None? ==>
      (r.Failure? <==> forall b :: b in page.blocks ==> !IsLongBlock(b))
    ensures r.Failure? ==> r.error == NoSuitableContent
  {
    if page.article.Some? then Success(page.article.value)
    else if page.main.Some? then Success(page.main.value)
    else
      var text := BlockText(page.blocks);
      if text == "" then Failure(NoSuitableContent) else Success(text)
  }

  /** Without article and main, the text is the long blocks in order with a
      blank line between neighbours: adding a long block at the end of the
      page appends a blank line and that block; adding a short one changes
      nothing. */
  lemma ExtractAppendBlock(page: Page, block: string)
    requires page.article.None? && page.main.None?
    ensures var page' := page.(blocks := page.blocks + [block]);
      && (!IsLongBlock(block) ==> Extract(page') == Extract(page))
      && (IsLongBlock(block) && Extract(page).Success? ==>
            Extract(page') == Success(Extract(page).value + BlockSeparator + block))
      && (IsLongBlock(block) && Extract(page).Failure? ==> Extract(page') == Success(block))
  {
    BlockTextSnoc(page.blocks, block);
  }

  /** The block text grows block by block. */
  lemma BlockTextSnoc(blocks: seq<string>, block: string)
    ensures !IsLongBlock(block) ==> BlockText(blocks + [block]) == BlockText(blocks)
    ensures IsLongBlock(block) && BlockText(blocks) != "" ==>
      BlockText(blocks + [block]) == BlockText(blocks) + BlockSeparator + block
    ensures IsLongBlock(block) && BlockText(blocks) == "" ==> BlockText(blocks + [block]) == block
  {
    var kept := LongBlocks(blocks);
    FilterAppend(blocks, [block], IsLongBlock);
    assert LongBlocks(blocks + [block]) == kept + LongBlocks([block]);
    if IsLongBlock(block) {
      assert LongBlocks([block]) == [block];
      if kept != [] {
        JoinSnoc(kept, block, BlockSeparator);
      }
    } else {
      assert LongBlocks([block]) == [];
      assert kept + [] == kept;
    }
  }

  /** A page with no article or main element and no long block yields the
      "No suitable content" error. */
  lemma NoLongBlocksFails(blocks: seq<string>)
    requires forall b :: b in blocks ==> Utf16Length(b) <= MinBlockLength
    ensures Extract(Page(None, None, blocks)) == Failure(NoSuitableContent)
  {
  }
}
