/**
  The paragraph chunker: the policy text is cut at blank lines, every piece is
  stripped, blank pieces are dropped and the rest are numbered from zero.
  Reading the file is not modelled; the chunker starts from its contents.
 */
module Chunker {
  import opened Strings

  /** The paragraph separator: two newlines, i.e. one blank line. */
  const Separator: string := "\n\n"

  /** A numbered paragraph of the policy text. */
  datatype Chunk = Chunk(id: nat, text: string)

  /** Every piece, stripped. */
  function StripAll(pieces: seq<string>): (stripped: seq<string>)
    ensures |stripped| == |pieces|
    ensures forall i :: 0 <= i < |pieces| ==>
      IsStripOf(pieces[i], stripped[i]) && IsStripped(stripped[i])
  {
    seq(|pieces|, i requires 0 <= i < |pieces| => Strip(pieces[i]))
  }

  /** The non-empty pieces, in order. */
  function DropEmpty(pieces: seq<string>): (kept: seq<string>)
    ensures forall i :: 0 <= i < |kept| ==> kept[i] != ""
  {
    if pieces == [] then []
    else
      var last := pieces[|pieces| - 1];
      DropEmpty(pieces[..|pieces| - 1]) + (if last == "" then [] else [last])
  }

  /** The positions `DropEmpty` keeps: increasing, and exactly those of the
      non-empty pieces. */
  function KeptPositions(pieces: seq<string>): (pos: seq<nat>)
    ensures |pos| == |DropEmpty(pieces)|
    ensures forall i :: 0 <= i < |pos| ==>
      pos[i] < |pieces| && DropEmpty(pieces)[i] == pieces[pos[i]]
    ensures forall i, j :: 0 <= i < j < |pos| ==> pos[i] < pos[j]
    ensures forall q :: 0 <= q < |pieces| && pieces[q] != "" ==> q in pos
  {
    if pieces == [] then []
    else
      var n := |pieces| - 1;
      var init := KeptPositions(pieces[..n]);
      var pos := if pieces[n] == "" then init else init + [n];
      KeptStep(pieces, init, pos);
      pos
  }

  /** The step of `KeptPositions`: the positions kept of all but the last
      piece, and the last position if that piece is non-empty. */
  lemma KeptStep(pieces: seq<string>, init: seq<nat>, pos: seq<nat>)
    requires pieces != []
    requires var front := pieces[..|pieces| - 1];
             && |init| == |DropEmpty(front)|
             && (forall i :: 0 <= i < |init| ==>
                   init[i] < |front| && DropEmpty(front)[i] == front[init[i]])
             && (forall i, j :: 0 <= i < j < |init| ==> init[i] < init[j])
             && (forall q :: 0 <= q < |front| && front[q] != "" ==> q in init)
    requires pos == if pieces[|pieces| - 1] == "" then init else init + [|pieces| - 1]
    ensures |pos| == |DropEmpty(pieces)|
    ensures forall i :: 0 <= i < |pos| ==>
      pos[i] < |pieces| && DropEmpty(pieces)[i] == pieces[pos[i]]
    ensures forall i, j :: 0 <= i < j < |pos| ==> pos[i] < pos[j]
    ensures forall q :: 0 <= q < |pieces| && pieces[q] != "" ==> q in pos
  {
    var n := |pieces| - 1;
    assert forall q :: 0 <= q < n ==> pieces[..n][q] == pieces[q];
  }

  /** The paragraphs of `text`, i.e. the list comprehension
      `[c.strip() for c in text.split("\n\n") if c.strip()]`. */
  function Paragraphs(text: string): (paragraphs: seq<string>)
    ensures forall i :: 0 <= i < |paragraphs| ==>
      paragraphs[i] != "" && IsStripped(paragraphs[i])
  {
    var stripped := StripAll(Split(text, Separator));
    var kept := DropEmpty(stripped);
    var pos := KeptPositions(stripped);
    assert forall i :: 0 <= i < |kept| ==> IsStripped(stripped[pos[i]]);
    kept
  }

  /** Each paragraph is the strip of a distinct piece of the split, in
      source order, and the pieces left out are exactly the blank ones. */
  lemma ParagraphsInSourceOrder(text: string)
    ensures var pieces := Split(text, Separator);
            var pos := KeptPositions(StripAll(pieces));
            && |pos| == |Paragraphs(text)|
            && (forall i :: 0 <= i < |pos| ==>
                  pos[i] < |pieces| && Paragraphs(text)[i] == Strip(pieces[pos[i]]))
            && (forall i, j :: 0 <= i < j < |pos| ==> pos[i] < pos[j])
            && (forall q :: 0 <= q < |pieces| ==> (q in pos <==> !AllSpace(pieces[q])))
  {
    var pieces := Split(text, Separator);
    var stripped := StripAll(pieces);
    var pos := KeptPositions(stripped);
    forall q | 0 <= q < |pieces| ensures q in pos <==> !AllSpace(pieces[q]) {
      StripEmptyIffBlank(pieces[q]);
      if q in pos {
        var i :| 0 <= i < |pos| && pos[i] == q;
        assert DropEmpty(stripped)[i] == stripped[q];
      }
    }
  }

  /** There are no paragraphs exactly when every piece of the split is blank. */
  lemma NoParagraphsIffBlankPieces(text: string)
    ensures var pieces := Split(text, Separator);
            Paragraphs(text) == [] <==> forall q :: 0 <= q < |pieces| ==> AllSpace(pieces[q])
  {
    var pieces := Split(text, Separator);
    var pos := KeptPositions(StripAll(pieces));
    ParagraphsInSourceOrder(text);
    if pos != [] {
      assert pos[0] in pos;
    }
  }

  /** Blank text, and only blank text, has no paragraphs. */
  lemma NoParagraphsIffBlank(text: string)
    ensures Paragraphs(text) == [] <==> AllSpace(text)
  {
    NoParagraphsIffBlankPieces(text);
    if AllSpace(text) {
      SplitBlank(text, Separator);
    } else {
      SomePieceNonBlank(text);
    }
  }

  /** Non-blank text has a non-blank piece. */
  lemma SomePieceNonBlank(text: string)
    requires !AllSpace(text)
    ensures var pieces := Split(text, Separator);
            exists q :: 0 <= q < |pieces| && !AllSpace(pieces[q])
  {
    var pieces := Split(text, Separator);
    SplitJoin(text, Separator);
    if forall q :: 0 <= q < |pieces| ==> AllSpace(pieces[q]) {
      JoinBlank(pieces, Separator);
    }
  }

  /** Non-blank text without a blank line is one paragraph: the stripped text. */
  lemma SingleParagraph(text: string)
    requires !Occurs(text, Separator) && !AllSpace(text)
    ensures Paragraphs(text) == [Strip(text)]
  {
    SplitNoMatch(text, Separator);
    StripEmptyIffBlank(text);
    var x := Strip(text);
    assert StripAll([text]) == [x];
    assert DropEmpty([x]) == DropEmpty([x][..0]) + [x];
  }

  /** `load_policy_chunks` once the file has been read: number the
      paragraphs from zero in order. */
  method LoadPolicyChunks(text: string) returns (chunks: seq<Chunk>)
    ensures |chunks| == |Paragraphs(text)|
    ensures forall i :: 0 <= i < |chunks| ==>
      chunks[i].id == i && chunks[i].text == Paragraphs(text)[i]
    ensures forall i :: 0 <= i < |chunks| ==>
      chunks[i].text != "" && IsStripped(chunks[i].text)
  {
    var paragraphs := Paragraphs(text);
    chunks := [];
    for idx := 0 to |paragraphs|
      invariant |chunks| == idx
      invariant forall i :: 0 <= i < idx ==> chunks[i] == Chunk(i, paragraphs[i])
    {
      chunks := chunks + [Chunk(idx, paragraphs[idx])];
    }
  }
}
