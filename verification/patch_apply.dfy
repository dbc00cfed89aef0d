/**
 * The patch applier of `PUT /api/ask-ai`: one block applied to the current
 * document, with the 1-based inclusive line range it occupies afterwards.
 */
module PatchApply {
  import opened Wrappers
  import opened JsText
  import opened PatchScan

  /** One `[startLine, endLine]` pair of `updatedLines`, 1-based and inclusive. */
  datatype LineRange = LineRange(startLine: nat, endLine: nat)

  /** The document after one block, and the range it reports (if any). */
  datatype Applied = Applied(doc: string, range: Option<LineRange>)

  /** The 1-based number of the line that holds position `i` of `s`. */
  function LineAt(s: string, i: nat): nat
    requires i <= |s|
  {
    CountChar(s[..i], '\n') + 1
  }

  /** A reported range names at least one line, starting at line 1 or later. */
  predicate RangeOk(r: LineRange) {
    1 <= r.startLine <= r.endLine
  }

  /**
   * One block applied: a search text that trims to nothing prepends the
   * replace text; otherwise the first verbatim occurrence of the search
   * text is replaced; a search text that does not occur changes nothing.
   * Whatever range is reported names at least one line.
   */
  function Apply(doc: string, b: Block): (r: Applied)
    ensures r.range.Some? ==> RangeOk(r.range.value)
  {
    if Trim(b.search) == [] then
      Prepend(doc, b.replace)
    else
      var p := IndexOf(doc, b.search, 0);
      if p != -1 then
        ReplaceAt(doc, b, p)
      else
        Applied(doc, None)
  }

  /**
   * A search text that trims to nothing: the replace text, a newline and
   * the old document, with a range from line 1 to the line where the
   * inserted text ends, which is the number of lines of the replace text.
   */
  lemma ApplyPrepends(doc: string, b: Block)
    requires IsBlank(b.search)
    ensures Apply(doc, b).doc == b.replace + "\n" + doc
    ensures Apply(doc, b).range == Some(LineRange(1, LineAt(Apply(doc, b).doc, |b.replace|)))
    ensures Apply(doc, b).range == Some(LineRange(1, LineCount(b.replace)))
  {
    TrimEmptyIffBlank(b.search);
    var d := b.replace + "\n" + doc;
    assert d[..|b.replace|] == b.replace;
  }

  /** A non-blank search text that does not occur: nothing changes, nothing is reported. */
  lemma ApplySkipsAbsent(doc: string, b: Block)
    requires !IsBlank(b.search)
    ensures AbsentFrom(doc, b.search, 0) <==> Apply(doc, b).range.None?
    ensures AbsentFrom(doc, b.search, 0) ==> Apply(doc, b) == Applied(doc, None)
  {
    TrimEmptyIffBlank(b.search);
    IndexOfFirst(doc, b.search, 0);
  }

  /** The prepend branch of `Apply`, field by field. */
  lemma ApplyPrependCase(doc: string, b: Block)
    requires Trim(b.search) == []
    ensures Apply(doc, b).doc == b.replace + "\n" + doc
    ensures Apply(doc, b).range == Some(LineRange(1, LineCount(b.replace)))
  {
  }

  /** The branch of `Apply` where the search text is not found, field by field. */
  lemma ApplyMissCase(doc: string, b: Block)
    requires Trim(b.search) != [] && IndexOf(doc, b.search, 0) == -1
    ensures Apply(doc, b).doc == doc
    ensures Apply(doc, b).range == None
  {
  }

  /** The replace branch of `Apply`, field by field. */
  lemma ApplyReplaceCase(doc: string, b: Block)
    requires Trim(b.search) != [] && IndexOf(doc, b.search, 0) != -1
    ensures var start := LineCount(Substring(doc, 0, IndexOf(doc, b.search, 0)));
      && Apply(doc, b).doc == ReplaceFirst(doc, b.search, b.replace)
      && Apply(doc, b).range == Some(LineRange(start, start + LineCount(b.replace) - 1))
  {
  }

  /** The prepend branch: the replace text, a newline, then the old document. */
  function Prepend(doc: string, replace: string): (r: Applied)
    ensures r.range.Some? && RangeOk(r.range.value)
  {
    Applied(replace + "\n" + doc, Some(LineRange(1, LineCount(replace))))
  }

  /** The replace branch, for the first match found at index `p`. */
  function ReplaceAt(doc: string, b: Block, p: nat): (r: Applied)
    requires p == IndexOf(doc, b.search, 0)
    ensures r.range.Some? && RangeOk(r.range.value)
  {
    var startLine := LineCount(Substring(doc, 0, p));
    var endLine := startLine + LineCount(b.replace) - 1;
    Applied(ReplaceFirst(doc, b.search, b.replace), Some(LineRange(startLine, endLine)))
  }

  /** The replace branch splices the replacement in at the match. */
  lemma ReplaceAtSplices(doc: string, b: Block, p: nat)
    requires p == IndexOf(doc, b.search, 0)
    ensures p + |b.search| <= |doc|
    ensures ReplaceAt(doc, b, p).doc == Splice(doc, p, |b.search|, b.replace)
  {
  }

  /** A non-blank search text that occurs takes the replace branch. */
  lemma ApplyTakesReplaceBranch(doc: string, b: Block)
    requires !IsBlank(b.search) && !AbsentFrom(doc, b.search, 0)
    ensures IndexOf(doc, b.search, 0) >= 0
    ensures Apply(doc, b) == ReplaceAt(doc, b, IndexOf(doc, b.search, 0))
  {
    TrimEmptyIffBlank(b.search);
    IndexOfFirst(doc, b.search, 0);
  }

  /**
   * A non-blank search text that occurs is replaced at its first
   * occurrence, and only there: the replacement is spliced in over the
   * first match and nowhere else.
   */
  lemma ApplyReplacesFirstMatch(doc: string, b: Block)
    requires !IsBlank(b.search) && !AbsentFrom(doc, b.search, 0)
    ensures var p := IndexOf(doc, b.search, 0);
      && 0 <= p && p + |b.search| <= |doc|
      && IsFirstFrom(doc, b.search, 0, p)
      && Apply(doc, b).doc == Splice(doc, p, |b.search|, b.replace)
  {
    var p := IndexOf(doc, b.search, 0);
    IndexOfFirst(doc, b.search, 0);
    ApplyTakesReplaceBranch(doc, b);
    var r := ReplaceAt(doc, b, p);
    ReplaceAtSplices(doc, b, p);
    assert Apply(doc, b).doc == r.doc;
  }

  /**
   * In a spliced document, the line where the inserted text ends is the
   * line where the cut began plus the inserted text's newlines.
   */
  lemma SpliceLineAt(doc: string, p: nat, cut: nat, ins: string)
    requires p + cut <= |doc|
    ensures p + |ins| <= |Splice(doc, p, cut, ins)|
    ensures LineAt(Splice(doc, p, cut, ins), p + |ins|) == LineAt(doc, p) + LineCount(ins) - 1
  {
    var d := Splice(doc, p, cut, ins);
    SpliceParts(doc, p, cut, ins);
    assert d[..p + |ins|] == doc[..p] + ins;
    CountCharAppend(doc[..p], ins, '\n');
  }

  /**
   * Around the match nothing changes: the text before it, the replacement
   * in its place, the text after it, and the length accordingly.
   */
  lemma ReplaceKeepsSurroundings(doc: string, b: Block)
    requires !IsBlank(b.search) && !AbsentFrom(doc, b.search, 0)
    ensures var p := IndexOf(doc, b.search, 0);
      var r := Apply(doc, b);
      && 0 <= p && p + |b.replace| <= |r.doc|
      && r.doc[..p] == doc[..p]
      && r.doc[p..p + |b.replace|] == b.replace
      && r.doc[p + |b.replace|..] == doc[p + |b.search|..]
      && |r.doc| == |doc| - |b.search| + |b.replace|
  {
    var p := IndexOf(doc, b.search, 0);
    ApplyReplacesFirstMatch(doc, b);
    SpliceParts(doc, p, |b.search|, b.replace);
  }

  /**
   * The range of a replacement as the handler computes it: the start is one
   * more than the number of newlines before the match, the end adds the
   * replacement's line count minus one.
   */
  lemma ReplaceRangeArithmetic(doc: string, b: Block)
    requires !IsBlank(b.search) && !AbsentFrom(doc, b.search, 0)
    ensures var p := IndexOf(doc, b.search, 0);
      var r := Apply(doc, b);
      && 0 <= p
      && r.range.Some?
      && r.range.value.startLine == CountChar(doc[..p], '\n') + 1 == LineAt(doc, p)
      && r.range.value.endLine == r.range.value.startLine + LineCount(b.replace) - 1
  {
    ApplyTakesReplaceBranch(doc, b);
  }

  /** A range computed before a splice names the lines the inserted text occupies after it. */
  lemma SpliceRange(doc: string, d: string, p: nat, cut: nat, ins: string, start: nat, end: int)
    requires p + cut <= |doc| && d == Splice(doc, p, cut, ins)
    requires start == LineAt(doc, p) && end == start + LineCount(ins) - 1
    ensures p + |ins| <= |d|
    ensures LineAt(d, p) == start && LineAt(d, p + |ins|) == end
  {
    SpliceLineAt(doc, p, cut, ins);
    SpliceParts(doc, p, cut, ins);
  }

  /** The replace branch reports the lines its replacement occupies in the new document. */
  lemma ReplaceAtCovers(doc: string, b: Block, p: nat)
    requires p == IndexOf(doc, b.search, 0)
    ensures var r := ReplaceAt(doc, b, p);
      && p + |b.replace| <= |r.doc|
      && r.range.Some?
      && r.range.value.startLine == LineAt(r.doc, p)
      && r.range.value.endLine == LineAt(r.doc, p + |b.replace|)
  {
    var r := ReplaceAt(doc, b, p);
    ReplaceAtSplices(doc, b, p);
    assert Substring(doc, 0, p) == doc[..p];
    SpliceRange(doc, r.doc, p, |b.search|, b.replace, r.range.value.startLine, r.range.value.endLine);
  }

  /**
   * What `updatedLines` means for a replacement: the reported range is
   * exactly the lines the replace text occupies in the new document, from
   * the line where it starts to the line where it ends.
   */
  lemma ReplaceRangeCoversReplacement(doc: string, b: Block)
    requires !IsBlank(b.search) && !AbsentFrom(doc, b.search, 0)
    ensures var p := IndexOf(doc, b.search, 0);
      var r := Apply(doc, b);
      && 0 <= p && p + |b.replace| <= |r.doc|
      && r.range.Some?
      && r.range.value.startLine == LineAt(r.doc, p)
      && r.range.value.endLine == LineAt(r.doc, p + |b.replace|)
  {
    ApplyTakesReplaceBranch(doc, b);
    var p := IndexOf(doc, b.search, 0);
    ReplaceAtCovers(doc, b, p);
    var r, q := Apply(doc, b), ReplaceAt(doc, b, p);
    assert r.doc == q.doc && r.range == q.range;
  }

  /** In "a\nb\nMATCH\nc", the first occurrence of MATCH is at index 4; MATCH is not blank. */
  lemma ExampleMatch()
    ensures IndexOf("a\nb\nMATCH\nc", "MATCH", 0) == 4
    ensures Trim("MATCH") != []
  {
    var doc := "a\nb\nMATCH\nc";
    assert OccursAt(doc, "MATCH", 4) by {
      assert doc[4..9] == "MATCH";
    }
    forall j: nat | j < 4
      ensures !OccursAt(doc, "MATCH", j)
    {
      assert doc[j] != 'M';
    }
    IndexOfFinds(doc, "MATCH", 0, 4);
    assert !IsJsWhitespace("MATCH"[0]);
    TrimEmptyIffBlank("MATCH");
  }

  lemma ExampleSplice()
    ensures "a\nb\n" + "X\nY" + "\nc" == "a\nb\nX\nY\nc"
  {
  }

  /** A first match whose surroundings are known gives the replaced text as three parts. */
  lemma ReplaceFirstKnown(s: string, pattern: string, replacement: string, at: nat, pre: string, post: string)
    requires IndexOf(s, pattern, 0) == at && at + |pattern| <= |s|
    requires s[..at] == pre && s[at + |pattern|..] == post
    ensures ReplaceFirst(s, pattern, replacement) == pre + replacement + post
  {
  }

  /** The text around the match. */
  lemma ExampleCuts()
    ensures "a\nb\nMATCH\nc"[..4] == "a\nb\n"
    ensures "a\nb\nMATCH\nc"[9..] == "\nc"
  {
  }

  /** The text of the worked replacement. */
  lemma ExampleText()
    ensures ReplaceFirst("a\nb\nMATCH\nc", "MATCH", "X\nY") == "a\nb\nX\nY\nc"
  {
    ExampleMatch();
    ExampleCuts();
    ReplaceFirstKnown("a\nb\nMATCH\nc", "MATCH", "X\nY", 4, "a\nb\n", "\nc");
    ExampleSplice();
  }

  /** The text before the match holds two newlines. */
  lemma ExampleLinesBefore()
    ensures LineCount(Substring("a\nb\nMATCH\nc", 0, 4)) == 3
  {
    assert Substring("a\nb\nMATCH\nc", 0, 4) == "a\nb\n";
    assert CountChar("a\nb\n", '\n') == 2;
  }

  /** The replacement spans two lines. */
  lemma ExampleLinesReplaced()
    ensures LineCount("X\nY") == 2
  {
    assert CountChar("X\nY", '\n') == 1;
  }

  /**
   * A worked replacement: in "a\nb\nMATCH\nc", the block MATCH → "X\nY"
   * gives "a\nb\nX\nY\nc" and reports lines 3 to 4.
   */
  lemma ReplaceExample()
    ensures Apply("a\nb\nMATCH\nc", Block("MATCH", "X\nY")).doc == "a\nb\nX\nY\nc"
    ensures Apply("a\nb\nMATCH\nc", Block("MATCH", "X\nY")).range == Some(LineRange(3, 4))
  {
    ExampleMatch();
    ApplyReplaceCase("a\nb\nMATCH\nc", Block("MATCH", "X\nY"));
    ExampleText();
    ExampleLinesBefore();
    ExampleLinesReplaced();
  }
}
