/**
 * The patch pipeline of `PUT /api/ask-ai`: every complete block of the
 * model's reply applied, in reply order, each to the document the previous
 * one produced, collecting the reported line ranges.
 */
module PatchPipeline {
  import opened Wrappers
  import opened JsText
  import opened PatchScan
  import opened PatchApply
  import opened ScanFacts
  import opened Seqs

  /** The new document and the `updatedLines` list. */
  datatype Outcome = Outcome(html: string, updatedLines: seq<LineRange>)

  /** Every reported range is well formed. */
  predicate AllRangesOk(rs: seq<LineRange>) {
    forall k :: 0 <= k < |rs| ==> RangeOk(rs[k])
  }

  /** Blocks applied left to right; a block that does not match reports nothing. */
  function ApplyAll(doc: string, blocks: seq<Block>): (r: Outcome)
    ensures |r.updatedLines| <= |blocks|
    decreases |blocks|
  {
    if blocks == [] then
      Outcome(doc, [])
    else
      var a := Apply(doc, blocks[0]);
      var rest := ApplyAll(a.doc, blocks[1..]);
      Outcome(rest.html, a.range.ToSeq() + rest.updatedLines)
  }

  /** The first block is applied to the document, the rest to its result. */
  lemma ApplyAllCons(doc: string, b: Block, bs: seq<Block>)
    ensures var a := Apply(doc, b);
      var o := ApplyAll(a.doc, bs);
      ApplyAll(doc, [b] + bs) == Outcome(o.html, a.range.ToSeq() + o.updatedLines)
  {
    ConsParts(b, bs);
  }

  /** Two lists of well-formed ranges make one. */
  lemma AllRangesOkAppend(xs: seq<LineRange>, ys: seq<LineRange>)
    requires AllRangesOk(xs) && AllRangesOk(ys)
    ensures AllRangesOk(xs + ys)
  {
    forall k | 0 <= k < |xs + ys|
      ensures RangeOk((xs + ys)[k])
    {
      if k >= |xs| {
        assert (xs + ys)[k] == ys[k - |xs|];
      }
    }
  }

  /** Every range the pass reports names at least one line. */
  lemma {:induction false} ApplyAllRangesOk(doc: string, blocks: seq<Block>)
    ensures AllRangesOk(ApplyAll(doc, blocks).updatedLines)
    decreases |blocks|
  {
    if blocks != [] {
      var a := Apply(doc, blocks[0]);
      ApplyAllRangesOk(a.doc, blocks[1..]);
      var head := a.range.ToSeq();
      assert AllRangesOk(head) by {
        if a.range.Some? {
          assert head[0] == a.range.value;
        }
      }
      AllRangesOkAppend(head, ApplyAll(a.doc, blocks[1..]).updatedLines);
    }
  }

  /**
   * Applying two runs of blocks one after the other is applying their
   * concatenation: the second run starts from the document the first left,
   * and the reported ranges are the first run's followed by the second's.
   */
  lemma {:induction false} ApplyAllAppend(doc: string, xs: seq<Block>, ys: seq<Block>)
    ensures var o1 := ApplyAll(doc, xs);
      var o2 := ApplyAll(o1.html, ys);
      ApplyAll(doc, xs + ys) == Outcome(o2.html, o1.updatedLines + o2.updatedLines)
    decreases |xs|
  {
    if xs == [] {
      assert xs + ys == ys;
    } else {
      var a := Apply(doc, xs[0]);
      ApplyAllAppend(a.doc, xs[1..], ys);
      ConsAppend(xs, ys);
      ApplyAllCons(doc, xs[0], xs[1..] + ys);
      var o1 := ApplyAll(a.doc, xs[1..]);
      var o2 := ApplyAll(o1.html, ys);
      AppendAssoc(a.range.ToSeq(), o1.updatedLines, o2.updatedLines);
    }
  }

  /** The whole pass over one complete reply, cursor starting at 0. */
  function Run(chunk: string, m: Markers, html: string): (r: Outcome)
    requires m.Valid()
    ensures |r.updatedLines| <= CountFrom(chunk, m.replaceEnd, 0)
  {
    ScanBoundedByClosingMarkers(chunk, m, 0);
    ApplyAll(html, Blocks(Scan(chunk, m, 0)))
  }

  /** A reply without a single complete block leaves the document as it was and reports nothing. */
  lemma NoCompleteBlockKeepsDocument(chunk: string, m: Markers, html: string)
    requires m.Valid() && !HasTriple(chunk, m, 0)
    ensures Run(chunk, m, html) == Outcome(html, [])
  {
    NextBlockNoneIff(chunk, m, 0);
    assert Scan(chunk, m, 0) == [];
    assert Blocks([]) == [];
  }

  /** What is left to do from cursor `pos`, given the state reached so far. */
  function Resume(chunk: string, m: Markers, pos: nat, doc: string, acc: seq<LineRange>): Outcome
    requires m.Valid() && pos <= |chunk|
  {
    var o := ApplyAll(doc, Blocks(Scan(chunk, m, pos)));
    Outcome(o.html, acc + o.updatedLines)
  }

  /** One loop iteration: apply the block found at the cursor, then resume past it. */
  lemma ResumeStep(chunk: string, m: Markers, pos: nat, doc: string, acc: seq<LineRange>)
    requires m.Valid() && pos <= |chunk|
    requires NextBlock(chunk, m, pos).Some?
    ensures var st := NextBlock(chunk, m, pos).value;
      var a := Apply(doc, st.block);
      Resume(chunk, m, pos, doc, acc) == Resume(chunk, m, st.next, a.doc, acc + a.range.ToSeq())
  {
    var st := NextBlock(chunk, m, pos).value;
    var rest := Scan(chunk, m, st.next);
    assert Scan(chunk, m, pos) == [st] + rest;
    BlocksCons(st, rest);
    ApplyAllCons(doc, st.block, Blocks(rest));
    var a := Apply(doc, st.block);
    var o := ApplyAll(a.doc, Blocks(rest));
    AppendAssoc(acc, a.range.ToSeq(), o.updatedLines);
  }

  /**
   * The three `indexOf` calls and the two `substring` cuts at the top of
   * the loop body. A block is found exactly when a complete marker triple
   * is left from the cursor; each marker found is the first one at or after
   * the start of the previous, and the texts are what lies between them.
   */
  method FindBlock(chunk: string, m: Markers, position: nat)
    returns (found: bool, searchBlock: string, replaceBlock: string, next: nat,
             searchStartIndex: int, dividerIndex: int, replaceEndIndex: int)
    requires m.Valid() && position <= |chunk|
    ensures found <==> HasTriple(chunk, m, position)
    ensures found ==>
      && 0 <= searchStartIndex <= dividerIndex <= replaceEndIndex
      && IsFirstFrom(chunk, m.searchStart, position, searchStartIndex)
      && IsFirstFrom(chunk, m.divider, searchStartIndex, dividerIndex)
      && IsFirstFrom(chunk, m.replaceEnd, dividerIndex, replaceEndIndex)
      && searchBlock == Substring(chunk, searchStartIndex + |m.searchStart|, dividerIndex)
      && replaceBlock == Substring(chunk, dividerIndex + |m.divider|, replaceEndIndex)
      && next == replaceEndIndex + |m.replaceEnd|
    ensures found <==> NextBlock(chunk, m, position).Some?
    ensures found ==>
      && NextBlock(chunk, m, position).value.block.search == searchBlock
      && NextBlock(chunk, m, position).value.block.replace == replaceBlock
      && NextBlock(chunk, m, position).value.next == next
  {
    found, searchBlock, replaceBlock, next := false, "", "", 0;
    dividerIndex, replaceEndIndex := -1, -1;
    searchStartIndex := IndexOf(chunk, m.searchStart, position);
    if searchStartIndex == -1 {
      NextBlockCases(chunk, m, position);
      NextBlockNoneIff(chunk, m, position);
      return;
    }
    dividerIndex := IndexOf(chunk, m.divider, searchStartIndex);
    if dividerIndex == -1 {
      NextBlockCases(chunk, m, position);
      NextBlockNoneIff(chunk, m, position);
      return;
    }
    replaceEndIndex := IndexOf(chunk, m.replaceEnd, dividerIndex);
    if replaceEndIndex == -1 {
      NextBlockCases(chunk, m, position);
      NextBlockNoneIff(chunk, m, position);
      return;
    }
    searchBlock := Substring(chunk, searchStartIndex + |m.searchStart|, dividerIndex);
    replaceBlock := Substring(chunk, dividerIndex + |m.divider|, replaceEndIndex);
    next := replaceEndIndex + |m.replaceEnd|;
    found := true;
    NextBlockFoundAt(chunk, m, position, searchStartIndex, dividerIndex, replaceEndIndex);
    NextBlockStepAt(chunk, m, position, searchStartIndex, dividerIndex, replaceEndIndex);
  }

  /**
   * The rest of the loop body for one block. A search text that trims to
   * nothing puts the replacement and a newline in front of the document,
   * covering lines 1 to the replacement's last. Otherwise the first
   * occurrence from the start is replaced and the range pushed runs from
   * the line the replacement starts on to the line it ends on; a search
   * text that does not occur changes nothing and pushes nothing.
   */
  method ApplyBlock(newHtml: string, searchBlock: string, replaceBlock: string)
    returns (html: string, pushed: Option<LineRange>)
    ensures IsBlank(searchBlock) ==>
      && html == replaceBlock + "\n" + newHtml
      && pushed.Some? && pushed.value.startLine == 1
      && pushed.value.endLine == LineAt(html, |replaceBlock|)
    ensures !IsBlank(searchBlock) && AbsentFrom(newHtml, searchBlock, 0) ==>
      html == newHtml && pushed.None?
    ensures !IsBlank(searchBlock) && !AbsentFrom(newHtml, searchBlock, 0) ==>
      var p := IndexOf(newHtml, searchBlock, 0);
      && 0 <= p && p + |searchBlock| <= |newHtml| && p + |replaceBlock| <= |html|
      && IsFirstFrom(newHtml, searchBlock, 0, p)
      && html[..p] == newHtml[..p]
      && html[p..p + |replaceBlock|] == replaceBlock
      && html[p + |replaceBlock|..] == newHtml[p + |searchBlock|..]
      && pushed.Some?
      && pushed.value.startLine == LineAt(html, p)
      && pushed.value.endLine == LineAt(html, p + |replaceBlock|)
    ensures html == Apply(newHtml, Block(searchBlock, replaceBlock)).doc
    ensures pushed == Apply(newHtml, Block(searchBlock, replaceBlock)).range
  {
    ghost var b := Block(searchBlock, replaceBlock);
    if Trim(searchBlock) == "" {
      html := replaceBlock + "\n" + newHtml;
      pushed := Some(LineRange(1, LineCount(replaceBlock)));
      ApplyPrependCase(newHtml, b);
    } else {
      var blockPosition := IndexOf(newHtml, searchBlock, 0);
      if blockPosition != -1 {
        var beforeText := Substring(newHtml, 0, blockPosition);
        var startLineNumber := LineCount(beforeText);
        var replaceLines := LineCount(replaceBlock);
        var endLineNumber := startLineNumber + replaceLines - 1;
        pushed := Some(LineRange(startLineNumber, endLineNumber));
        html := ReplaceFirst(newHtml, searchBlock, replaceBlock);
        ApplyReplaceCase(newHtml, b);
      } else {
        html, pushed := newHtml, None;
        ApplyMissCase(newHtml, b);
      }
    }
    ghost var r := Apply(newHtml, b);
    assert html == r.doc && pushed == r.range;
    if IsBlank(searchBlock) {
      ApplyPrepends(newHtml, b);
    } else if AbsentFrom(newHtml, searchBlock, 0) {
      ApplySkipsAbsent(newHtml, b);
    } else {
      ApplyReplacesFirstMatch(newHtml, b);
      ReplaceKeepsSurroundings(newHtml, b);
      ReplaceRangeCoversReplacement(newHtml, b);
    }
  }

  /**
   * The loop of the handler: find the next complete block from the cursor,
   * stop when there is none, apply it, and move the cursor past its closing
   * marker. It computes exactly the pass `Run` describes.
   */
  method ApplyBlocks(chunk: string, m: Markers, html: string)
    returns (newHtml: string, updatedLines: seq<LineRange>)
    requires m.Valid()
    ensures newHtml == Run(chunk, m, html).html
    ensures updatedLines == Run(chunk, m, html).updatedLines
    ensures AllRangesOk(updatedLines)
  {
    newHtml := html;
    updatedLines := [];
    var position: nat := 0;
    var moreBlocks := true;

    while moreBlocks
      invariant position <= |chunk|
      invariant Resume(chunk, m, position, newHtml, updatedLines) == Run(chunk, m, html)
      invariant !moreBlocks ==> Scan(chunk, m, position) == []
      decreases |chunk| - position + (if moreBlocks then 1 else 0)
    {
      var found, searchBlock, replaceBlock, next, _, _, _ := FindBlock(chunk, m, position);
      if !found {
        moreBlocks := false;
        continue;
      }
      ResumeStep(chunk, m, position, newHtml, updatedLines);
      var pushed;
      newHtml, pushed := ApplyBlock(newHtml, searchBlock, replaceBlock);
      updatedLines := updatedLines + pushed.ToSeq();
      position := next;
    }
    assert updatedLines + [] == updatedLines;
    ApplyAllRangesOk(html, Blocks(Scan(chunk, m, 0)));
  }
}
