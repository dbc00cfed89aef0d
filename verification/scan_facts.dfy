/**
 * What the scanning loop of `PUT /api/ask-ai` guarantees over a whole reply:
 * it reads complete blocks left to right, each exactly once, stops for good
 * at the first incomplete one, and runs at most once per closing marker.
 */
module ScanFacts {
  import opened Wrappers
  import opened JsText
  import opened PatchScan
  import opened Seqs

  /** Every block read lies inside the reply, at or after the starting cursor. */
  lemma {:induction false} ScanWithin(chunk: string, m: Markers, pos: nat)
    requires m.Valid() && pos <= |chunk|
    ensures Within(Scan(chunk, m, pos), pos, |chunk|)
    decreases |chunk| - pos
  {
    var r := NextBlock(chunk, m, pos);
    if r.Some? {
      var st := r.value;
      ScanWithin(chunk, m, st.next);
      var rest := Scan(chunk, m, st.next);
      var steps := [st] + rest;
      assert Scan(chunk, m, pos) == steps;
      forall i | 0 <= i < |steps|
        ensures pos <= steps[i].start < steps[i].next <= |chunk|
      {
        if i > 0 {
          assert steps[i] == rest[i - 1];
        }
      }
    }
  }

  /** Blocks are read left to right: each starts after the previous one ended. */
  lemma {:induction false} ScanInOrder(chunk: string, m: Markers, pos: nat)
    requires m.Valid() && pos <= |chunk|
    ensures LeftToRight(Scan(chunk, m, pos))
    decreases |chunk| - pos
  {
    var r := NextBlock(chunk, m, pos);
    if r.Some? {
      var st := r.value;
      ScanInOrder(chunk, m, st.next);
      ScanWithin(chunk, m, st.next);
      var rest := Scan(chunk, m, st.next);
      var steps := [st] + rest;
      assert Scan(chunk, m, pos) == steps;
      assert Within(rest, st.next, |chunk|);
      assert LeftToRight(rest);
      forall i | 0 < i < |steps|
        ensures steps[i - 1].next <= steps[i].start
      {
        assert steps[i] == rest[i - 1];
        if i == 1 {
          assert st.next <= rest[0].start;
        } else {
          assert steps[i - 1] == rest[i - 2];
        }
      }
    }
  }

  /**
   * Each block is the one the scanner finds from the cursor the previous
   * block left behind, the first one from the starting cursor.
   */
  lemma {:induction false} ScanFollowsCursor(chunk: string, m: Markers, pos: nat)
    requires m.Valid() && pos <= |chunk|
    ensures var steps := Scan(chunk, m, pos);
      && (|steps| > 0 ==> NextBlock(chunk, m, pos) == Some(steps[0]))
      && (forall i :: 0 <= i < |steps| - 1 ==>
            steps[i].next <= |chunk| && NextBlock(chunk, m, steps[i].next) == Some(steps[i + 1]))
    decreases |chunk| - pos
  {
    var r := NextBlock(chunk, m, pos);
    if r.Some? {
      var st := r.value;
      ScanFollowsCursor(chunk, m, st.next);
      var rest := Scan(chunk, m, st.next);
      var steps := [st] + rest;
      assert Scan(chunk, m, pos) == steps;
      forall i | 0 <= i < |steps| - 1
        ensures steps[i].next <= |chunk| && NextBlock(chunk, m, steps[i].next) == Some(steps[i + 1])
      {
        assert steps[i + 1] == rest[i];
        if i > 0 {
          assert steps[i] == rest[i - 1];
        }
      }
    }
  }

  /**
   * The cursor ends just past the last closing marker consumed (or where it
   * started, when nothing was read), and no complete block is left after it.
   */
  lemma {:induction false} ScanEndIsFinal(chunk: string, m: Markers, pos: nat)
    requires m.Valid() && pos <= |chunk|
    ensures var steps := Scan(chunk, m, pos);
      && ScanEnd(chunk, m, pos) == (if |steps| == 0 then pos else steps[|steps| - 1].next)
      && ScanEnd(chunk, m, pos) <= |chunk|
      && !HasTriple(chunk, m, ScanEnd(chunk, m, pos))
    decreases |chunk| - pos
  {
    var r := NextBlock(chunk, m, pos);
    if r.None? {
      NextBlockNoneIff(chunk, m, pos);
    } else {
      var st := r.value;
      ScanEndIsFinal(chunk, m, st.next);
      var rest := Scan(chunk, m, st.next);
      assert Scan(chunk, m, pos) == [st] + rest;
      if |rest| > 0 {
        assert ([st] + rest)[|rest|] == rest[|rest| - 1];
      }
    }
  }

  /** A found block is the head of the scan from the same cursor. */
  lemma ScanUnfolds(chunk: string, m: Markers, pos: nat)
    requires m.Valid() && pos <= |chunk|
    requires NextBlock(chunk, m, pos).Some?
    ensures var st := NextBlock(chunk, m, pos).value;
      Scan(chunk, m, pos) == [st] + Scan(chunk, m, st.next)
  {
  }

  /** Reading one block steps over at least one closing marker. */
  lemma {:induction false} ScanStepUsesMarker(chunk: string, m: Markers, pos: nat)
    requires m.Valid() && pos <= |chunk|
    requires NextBlock(chunk, m, pos).Some?
    ensures var st := NextBlock(chunk, m, pos).value;
      CountFrom(chunk, m.replaceEnd, pos) >= 1 + CountFrom(chunk, m.replaceEnd, st.next)
  {
    var st := NextBlock(chunk, m, pos).value;
    NextBlockMarkersOccur(chunk, m, pos);
    CountFromHit(chunk, m.replaceEnd, pos, st.endAt);
    CountFromAntitone(chunk, m.replaceEnd, st.endAt + 1, st.next);
  }

  /** The loop runs at most once per closing marker in the reply. */
  lemma {:induction false} ScanBoundedByClosingMarkers(chunk: string, m: Markers, pos: nat)
    requires m.Valid() && pos <= |chunk|
    ensures |Scan(chunk, m, pos)| <= CountFrom(chunk, m.replaceEnd, pos)
    decreases |chunk| - pos
  {
    var r := NextBlock(chunk, m, pos);
    if r.Some? {
      ScanUnfolds(chunk, m, pos);
      ScanStepUsesMarker(chunk, m, pos);
      ScanBoundedByClosingMarkers(chunk, m, r.value.next);
    }
  }

  /** A reply with no divider anywhere (a truncated block, say) yields no block. */
  lemma NoDividerNoBlocks(chunk: string, m: Markers, pos: nat)
    requires m.Valid() && pos <= |chunk|
    requires AbsentFrom(chunk, m.divider, 0)
    ensures Scan(chunk, m, pos) == []
    ensures ScanEnd(chunk, m, pos) == pos
  {
    NextBlockNoneIff(chunk, m, pos);
  }

  // ---------------------------------------------------------------------------
  // Search and replace texts sit exactly between their markers
  // ---------------------------------------------------------------------------

  /** `b` starts `k` characters into `a` in a way consistent with both. */
  predicate OverlapsAt(a: string, b: string, k: nat) {
    k < |a| && a[k..k + Min(|a| - k, |b|)] == b[..Min(|a| - k, |b|)]
  }

  /** No occurrence of `b` can start inside an occurrence of `a`. */
  predicate Separated(a: string, b: string) {
    forall k: nat :: k < |a| ==> !OverlapsAt(a, b, k)
  }

  lemma SeparatedOccurrences(c: string, a: string, b: string, s: nat, d: nat)
    requires Separated(a, b)
    requires OccursAt(c, a, s) && OccursAt(c, b, d) && s <= d
    ensures s + |a| <= d
  {
    if d < s + |a| {
      var k: nat := d - s;
      var n := Min(|a| - k, |b|);
      assert a[k..k + n] == c[d..d + n] by {
        SliceOfSlice(c, s, s + |a|, k, k + n);
      }
      assert b[..n] == c[d..d + n] by {
        SliceOfSlice(c, d, d + |b|, 0, n);
      }
      assert OverlapsAt(a, b, k);
    }
  }

  /** A block written out with its markers, given where the markers sit. */
  lemma Reassemble(chunk: string, m: Markers, s: nat, d: nat, e: nat, b: Block)
    requires OccursAt(chunk, m.searchStart, s)
    requires OccursAt(chunk, m.divider, d)
    requires OccursAt(chunk, m.replaceEnd, e)
    requires s + |m.searchStart| <= d && d + |m.divider| <= e
    requires b.search == chunk[s + |m.searchStart|..d]
    requires b.replace == chunk[d + |m.divider|..e]
    ensures chunk[s..e + |m.replaceEnd|]
         == m.searchStart + b.search + m.divider + b.replace + m.replaceEnd
  {
    var a := s + |m.searchStart|;
    var c := d + |m.divider|;
    var z := e + |m.replaceEnd|;
    var p1 := m.searchStart;
    var p2 := p1 + b.search;
    var p3 := p2 + m.divider;
    var p4 := p3 + b.replace;
    assert chunk[s..a] == p1;
    assert chunk[s..d] == p2 by { SliceSplit(chunk, s, a, d); }
    assert chunk[s..c] == p3 by { SliceSplit(chunk, s, d, c); }
    assert chunk[s..e] == p4 by { SliceSplit(chunk, s, c, e); }
    SliceSplit(chunk, s, e, z);
  }

  /**
   * With separated markers the divider found is past the end of the opening
   * marker and the closing marker past the end of the divider, so the search
   * text is exactly what lies between the first two markers, the replace
   * text exactly what lies between the last two, and the consumed stretch
   * of the reply is the block written out with its markers.
   */
  lemma BlockTextsBetweenMarkers(chunk: string, m: Markers, pos: nat)
    requires m.Valid() && pos <= |chunk|
    requires Separated(m.searchStart, m.divider) && Separated(m.divider, m.replaceEnd)
    requires NextBlock(chunk, m, pos).Some?
    ensures var st := NextBlock(chunk, m, pos).value;
      && st.start + |m.searchStart| <= st.dividerAt
      && st.dividerAt + |m.divider| <= st.endAt
      && st.block.search == chunk[st.start + |m.searchStart|..st.dividerAt]
      && st.block.replace == chunk[st.dividerAt + |m.divider|..st.endAt]
      && chunk[st.start..st.next]
         == m.searchStart + st.block.search + m.divider + st.block.replace + m.replaceEnd
  {
    var st := NextBlock(chunk, m, pos).value;
    NextBlockFinds(chunk, m, pos);
    NextBlockCuts(chunk, m, pos);
    assert OccursAt(chunk, m.searchStart, st.start);
    assert OccursAt(chunk, m.divider, st.dividerAt);
    assert OccursAt(chunk, m.replaceEnd, st.endAt);
    SeparatedOccurrences(chunk, m.searchStart, m.divider, st.start, st.dividerAt);
    SeparatedOccurrences(chunk, m.divider, m.replaceEnd, st.dividerAt, st.endAt);
    Reassemble(chunk, m, st.start, st.dividerAt, st.endAt, st.block);
  }

  // ---------------------------------------------------------------------------
  // Writing a block out and reading it back
  // ---------------------------------------------------------------------------

  /** A block written out with its markers, as the model is told to write it. */
  function Encode(m: Markers, b: Block): (chunk: string)
    ensures |chunk| == |m.searchStart| + |b.search| + |m.divider| + |b.replace| + |m.replaceEnd|
  {
    m.searchStart + b.search + m.divider + b.replace + m.replaceEnd
  }

  /**
   * In the written-out block, the divider first occurs where it was written
   * and the closing marker first occurs, from the divider on, where it was
   * written: neither the search text nor the replace text gets in the way.
   */
  ghost predicate ReadsBack(m: Markers, b: Block) {
    var c := Encode(m, b);
    var d := |m.searchStart| + |b.search|;
    var e := d + |m.divider| + |b.replace|;
    && IsFirstFrom(c, m.divider, 0, d)
    && IsFirstFrom(c, m.replaceEnd, d, e)
  }

  /** Where the parts of a written-out block sit. */
  lemma EncodeParts(m: Markers, b: Block)
    ensures var c := Encode(m, b);
      var d := |m.searchStart| + |b.search|;
      var e := d + |m.divider| + |b.replace|;
      && OccursAt(c, m.searchStart, 0)
      && c[|m.searchStart|..d] == b.search
      && c[d + |m.divider|..e] == b.replace
  {
    var c := Encode(m, b);
    var d := |m.searchStart| + |b.search|;
    var e := d + |m.divider| + |b.replace|;
    var p := m.searchStart + b.search;
    var q := p + m.divider + b.replace;
    assert c == q + m.replaceEnd;
    assert c[..e] == q;
    assert q[..d] == p;
    assert c[|m.searchStart|..d] == p[|m.searchStart|..] by {
      SliceOfSlice(c, 0, e, |m.searchStart|, d);
    }
    assert c[d + |m.divider|..e] == q[d + |m.divider|..] by {
      SliceOfSlice(c, 0, e, d + |m.divider|, e);
    }
  }

  /** At the end of the reply no block is left: the closing marker is not empty. */
  lemma NothingAtEnd(chunk: string, m: Markers)
    requires m.Valid()
    ensures Scan(chunk, m, |chunk|) == []
    ensures ScanEnd(chunk, m, |chunk|) == |chunk|
  {
    NextBlockNoneIff(chunk, m, |chunk|);
  }

  /** The scanner's first step over a written-out block finds exactly its two texts. */
  lemma DecodeFirstStep(m: Markers, b: Block)
    requires m.Valid() && ReadsBack(m, b)
    ensures var c := Encode(m, b);
      && NextBlock(c, m, 0).Some?
      && NextBlock(c, m, 0).value.block.search == b.search
      && NextBlock(c, m, 0).value.block.replace == b.replace
      && NextBlock(c, m, 0).value.next == |c|
  {
    var c := Encode(m, b);
    var d := |m.searchStart| + |b.search|;
    var e := d + |m.divider| + |b.replace|;
    EncodeParts(m, b);
    IndexOfFinds(c, m.searchStart, 0, 0);
    IndexOfFinds(c, m.divider, 0, d);
    IndexOfFinds(c, m.replaceEnd, d, e);
    NextBlockCases(c, m, 0);
  }

  /**
   * A block written out with its markers reads back as exactly that block,
   * when neither of its texts holds a marker that would be found first.
   */
  lemma DecodeEncode(m: Markers, b: Block)
    requires m.Valid() && ReadsBack(m, b)
    ensures Blocks(Scan(Encode(m, b), m, 0)) == [b]
    ensures ScanEnd(Encode(m, b), m, 0) == |Encode(m, b)|
  {
    var c := Encode(m, b);
    DecodeFirstStep(m, b);
    var st := NextBlock(c, m, 0).value;
    NothingAtEnd(c, m);
    ScanUnfolds(c, m, 0);
    BlocksCons(st, []);
    assert st.block == Block(b.search, b.replace) == b;
  }
}
