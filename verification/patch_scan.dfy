/**
 * The block scanner of the modify flow of `PUT /api/ask-ai`: it finds the
 * next `SEARCH_START … DIVIDER … REPLACE_END` triple in the model's reply,
 * starting from a cursor, and cuts out the search and replace texts.
 */
module PatchScan {
  import opened Wrappers
  import opened JsText

  /**
   * The three literal delimiters the model is told to emit. Their values
   * live in the prompts module, which is not part of this model, so they
   * are a parameter. The closing marker must be non-empty. An empty one is
   * "found" at the divider's index, so the cursor lands inside the block
   * instead of past it, and without `replaceEnd != []` the loop has no
   * decreasing measure.
   */
  datatype Markers = Markers(searchStart: string, divider: string, replaceEnd: string) {
    predicate Valid() {
      replaceEnd != []
    }
  }

  /** One proposed edit: replace `search` with `replace`. */
  datatype Block = Block(search: string, replace: string)

  /**
   * One complete delimiter triple: where its three markers start, the block
   * cut out of it, and the cursor just past its closing marker.
   */
  datatype Step = Step(block: Block, start: nat, dividerAt: nat, endAt: nat, next: nat)

  /**
   * Some opening marker at or after `pos` is followed (at or after its own
   * start) by a divider, which is followed (at or after its start) by a
   * closing marker: a complete block is still to be read.
   */
  ghost predicate HasTriple(chunk: string, m: Markers, pos: nat) {
    exists s: nat, d: nat, e: nat ::
      && pos <= s <= d <= e
      && OccursAt(chunk, m.searchStart, s)
      && OccursAt(chunk, m.divider, d)
      && OccursAt(chunk, m.replaceEnd, e)
  }

  /**
   * The body of one iteration of the scanning loop: three `indexOf` calls,
   * the divider searched from the opening marker's start and the closing
   * marker from the divider's start, then two `substring` cuts.
   */
  function NextBlock(chunk: string, m: Markers, pos: nat): (r: Option<Step>)
    requires m.Valid() && pos <= |chunk|
    ensures r.Some? ==>
      && pos <= r.value.start <= r.value.dividerAt <= r.value.endAt < r.value.next <= |chunk|
      && r.value.next == r.value.endAt + |m.replaceEnd|
  {
    var s := IndexOf(chunk, m.searchStart, pos);
    if s == -1 then
      None
    else
      var d := IndexOf(chunk, m.divider, s);
      if d == -1 then
        None
      else
        var e := IndexOf(chunk, m.replaceEnd, d);
        if e == -1 then
          None
        else
          var search := Substring(chunk, s + |m.searchStart|, d);
          var replace := Substring(chunk, d + |m.divider|, e);
          Some(Step(Block(search, replace), s, d, e, e + |m.replaceEnd|))
  }

  /**
   * The scanner gives up exactly when no complete block is left: no opening
   * marker, or no divider after it, or no closing marker after that.
   */
  lemma NextBlockNoneIff(chunk: string, m: Markers, pos: nat)
    requires m.Valid() && pos <= |chunk|
    ensures NextBlock(chunk, m, pos).None? <==> !HasTriple(chunk, m, pos)
  {
    var s := IndexOf(chunk, m.searchStart, pos);
    IndexOfFirst(chunk, m.searchStart, pos);
    if s != -1 {
      var d := IndexOf(chunk, m.divider, s);
      IndexOfFirst(chunk, m.divider, s);
      if d != -1 {
        var e := IndexOf(chunk, m.replaceEnd, d);
        IndexOfFirst(chunk, m.replaceEnd, d);
        if e != -1 {
          assert OccursAt(chunk, m.searchStart, s) && OccursAt(chunk, m.divider, d);
          assert OccursAt(chunk, m.replaceEnd, e);
        } else {
          assert !HasTriple(chunk, m, pos);
        }
      } else {
        assert !HasTriple(chunk, m, pos);
      }
    }
  }

  /**
   * A found block sits at the first opening marker at or after the cursor,
   * the first divider at or after that marker's start, and the first
   * closing marker at or after the divider's start.
   */
  lemma NextBlockFinds(chunk: string, m: Markers, pos: nat)
    requires m.Valid() && pos <= |chunk|
    requires NextBlock(chunk, m, pos).Some?
    ensures var st := NextBlock(chunk, m, pos).value;
      && IsFirstFrom(chunk, m.searchStart, pos, st.start)
      && IsFirstFrom(chunk, m.divider, st.start, st.dividerAt)
      && IsFirstFrom(chunk, m.replaceEnd, st.dividerAt, st.endAt)
  {
    var st := NextBlock(chunk, m, pos).value;
    IndexOfFirst(chunk, m.searchStart, pos);
    IndexOfFirst(chunk, m.divider, st.start);
    IndexOfFirst(chunk, m.replaceEnd, st.dividerAt);
  }

  /** The scanner's step, spelled out from its three `indexOf` results. */
  lemma NextBlockCases(chunk: string, m: Markers, pos: nat)
    requires m.Valid() && pos <= |chunk|
    ensures var s := IndexOf(chunk, m.searchStart, pos);
      if s == -1 then NextBlock(chunk, m, pos).None?
      else
        var d := IndexOf(chunk, m.divider, s);
        if d == -1 then NextBlock(chunk, m, pos).None?
        else
          var e := IndexOf(chunk, m.replaceEnd, d);
          if e == -1 then NextBlock(chunk, m, pos).None?
          else
            NextBlock(chunk, m, pos)
            == Some(Step(Block(Substring(chunk, s + |m.searchStart|, d), Substring(chunk, d + |m.divider|, e)),
                         s, d, e, e + |m.replaceEnd|))
  {
  }

  /**
   * When all three `indexOf` calls succeed, at `s`, `d` and `e`, each is the
   * first occurrence from where it was searched, and a complete block is
   * left.
   */
  lemma NextBlockFoundAt(chunk: string, m: Markers, pos: nat, s: nat, d: nat, e: nat)
    requires m.Valid() && pos <= |chunk|
    requires s == IndexOf(chunk, m.searchStart, pos)
    requires d == IndexOf(chunk, m.divider, s)
    requires e == IndexOf(chunk, m.replaceEnd, d)
    ensures HasTriple(chunk, m, pos)
    ensures IsFirstFrom(chunk, m.searchStart, pos, s)
    ensures IsFirstFrom(chunk, m.divider, s, d)
    ensures IsFirstFrom(chunk, m.replaceEnd, d, e)
  {
    IndexOfFirst(chunk, m.searchStart, pos);
    IndexOfFirst(chunk, m.divider, s);
    IndexOfFirst(chunk, m.replaceEnd, d);
  }

  /** The step the scanner takes then is the block cut at those indices. */
  lemma NextBlockStepAt(chunk: string, m: Markers, pos: nat, s: nat, d: nat, e: nat)
    requires m.Valid() && pos <= |chunk|
    requires s == IndexOf(chunk, m.searchStart, pos)
    requires d == IndexOf(chunk, m.divider, s)
    requires e == IndexOf(chunk, m.replaceEnd, d)
    ensures NextBlock(chunk, m, pos).Some?
    ensures NextBlock(chunk, m, pos).value.block.search == Substring(chunk, s + |m.searchStart|, d)
    ensures NextBlock(chunk, m, pos).value.block.replace == Substring(chunk, d + |m.divider|, e)
    ensures NextBlock(chunk, m, pos).value.next == e + |m.replaceEnd|
  {
  }

  /** The three markers of a found block are really there. */
  lemma NextBlockMarkersOccur(chunk: string, m: Markers, pos: nat)
    requires m.Valid() && pos <= |chunk|
    requires NextBlock(chunk, m, pos).Some?
    ensures var st := NextBlock(chunk, m, pos).value;
      && OccursAt(chunk, m.searchStart, st.start)
      && OccursAt(chunk, m.divider, st.dividerAt)
      && OccursAt(chunk, m.replaceEnd, st.endAt)
  {
  }

  /**
   * The search text is the `substring` from the end of the opening marker
   * to the divider, the replace text the `substring` from the end of the
   * divider to the closing marker.
   */
  lemma NextBlockCuts(chunk: string, m: Markers, pos: nat)
    requires m.Valid() && pos <= |chunk|
    requires NextBlock(chunk, m, pos).Some?
    ensures var st := NextBlock(chunk, m, pos).value;
      && st.block.search == Substring(chunk, st.start + |m.searchStart|, st.dividerAt)
      && st.block.replace == Substring(chunk, st.dividerAt + |m.divider|, st.endAt)
  {
  }

  /**
   * The whole scanning loop: every complete block from `pos` on, in the
   * order the loop reads them. It stops at the first incomplete block.
   */
  function Scan(chunk: string, m: Markers, pos: nat): (steps: seq<Step>)
    requires m.Valid() && pos <= |chunk|
    decreases |chunk| - pos
  {
    match NextBlock(chunk, m, pos)
    case None => []
    case Some(st) => [st] + Scan(chunk, m, st.next)
  }

  /** Where the cursor rests when the loop stops. */
  function ScanEnd(chunk: string, m: Markers, pos: nat): (end: nat)
    requires m.Valid() && pos <= |chunk|
    decreases |chunk| - pos
  {
    match NextBlock(chunk, m, pos)
    case None => pos
    case Some(st) => ScanEnd(chunk, m, st.next)
  }

  /** Every step lies inside a reply of length `len`, at or after `pos`. */
  predicate Within(steps: seq<Step>, pos: nat, len: nat) {
    forall i :: 0 <= i < |steps| ==> pos <= steps[i].start < steps[i].next <= len
  }

  /** Each step starts at or after the end of the one before it. */
  predicate LeftToRight(steps: seq<Step>) {
    forall i :: 0 < i < |steps| ==> steps[i - 1].next <= steps[i].start
  }

  /** The blocks of a scan, in order. */
  function Blocks(steps: seq<Step>): (bs: seq<Block>)
    ensures |bs| == |steps|
  {
    if steps == [] then [] else [steps[0].block] + Blocks(steps[1..])
  }

  /** The blocks of a step followed by more steps. */
  lemma BlocksCons(st: Step, rest: seq<Step>)
    ensures Blocks([st] + rest) == [st.block] + Blocks(rest)
  {
    assert ([st] + rest)[1..] == rest;
  }
}
