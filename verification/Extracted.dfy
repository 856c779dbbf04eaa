/** Where the blocks that runs are folded into lie in the text they were parsed from. */
module Extracted {
  import opened Documents
  import opened Positions
  import opened Runs
  import opened Sentence

  /** The comments of a text in a language, one after the other. */
  type Parser = (string, string) -> seq<Comment>

  ghost predicate OnACharacter(text: string, offset: nat) { exists k: nat :: Boundary(text, offset, k) }

  /** Sorted and apart, each beginning and ending on a character of the text. */
  ghost predicate FoundIn(text: string, c: seq<Comment>) {
    InFile(c) && forall i :: 0 <= i < |c| ==> OnACharacter(text, c[i].startByte) && OnACharacter(text, c[i].endByte)
  }

  /** A parser that finds comments so in every text. */
  ghost predicate FindsComments(parse: Parser) {
    forall language, text :: FoundIn(text, parse(language, text))
  }

  /** The blocks of the comments, as the bytes they take up. */
  function SpansOf(u: Alphabet, c: seq<Comment>): (r: seq<Span>)
    ensures |r| == |Cuts(u, c)|
  {
    CutsInBounds(u, c);
    var blocks := BlocksOf(c, Cuts(u, c));
    seq(|blocks|, k requires 0 <= k < |blocks| => Span(blocks[k].startByte, blocks[k].endByte))
  }

  function Extraction(u: Alphabet, parse: Parser): Extractor {
    (language, text) => SpansOf(u, parse(language, text))
  }

  lemma CutsInBounds(u: Alphabet, c: seq<Comment>)
    ensures InBounds(c, Cuts(u, c)) && Sorted(Cuts(u, c), |c|)
  {
    hide Cuts, Good, Covers, Chained;
    Partition(u, c);
  }

  lemma SpanAt(u: Alphabet, c: seq<Comment>, k: nat)
    requires k < |Cuts(u, c)|
    ensures var cut := Cuts(u, c)[k];
      cut.lo < cut.hi <= |c| && SpansOf(u, c)[k] == Span(c[cut.lo].startByte, c[cut.hi - 1].endByte)
  {
    hide Cuts, JoinBodies;
    CutsInBounds(u, c);
  }

  /** Runs of comments found in a text are folded into blocks that are placed well in it. */
  lemma BlocksArePlaced(u: Alphabet, text: string, c: seq<Comment>)
    requires FoundIn(text, c)
    ensures WellPlaced(text, SpansOf(u, c))
  {
    hide Cuts, SpansOf, Boundary;
    var spans := SpansOf(u, c);
    forall b | b in spans ensures exists j, k :: Boundary(text, b.start, j) && Boundary(text, b.end, k) {
      var k :| 0 <= k < |spans| && spans[k] == b;
      SpanAt(u, c, k);
      assert OnACharacter(text, b.start) && OnACharacter(text, b.end);
    }
    forall i, j | 0 <= i < j < |spans| ensures spans[i].end <= spans[j].start {
      SpanAt(u, c, i);
      SpanAt(u, c, j);
      CutsInBounds(u, c);
    }
  }

  lemma ExtractionPlacesWell(u: Alphabet, parse: Parser)
    requires FindsComments(parse)
    ensures PlacesWell(Extraction(u, parse))
  {
    hide FoundIn, SpansOf, WellPlaced;
    forall language, text ensures WellPlaced(text, Extraction(u, parse)(language, text)) {
      BlocksArePlaced(u, text, parse(language, text));
    }
  }

  /** Byte `offset` is one of a comment with words. */
  ghost predicate InWords(u: Alphabet, c: seq<Comment>, offset: nat) {
    exists i :: 0 <= i < |c| && c[i].IsTranslatable(u) && c[i].startByte <= offset < c[i].endByte
  }

  lemma InItsBlock(u: Alphabet, c: seq<Comment>, offset: nat)
    requires InFile(c) && InWords(u, c, offset)
    ensures exists k :: 0 <= k < |SpansOf(u, c)| && SpansOf(u, c)[k].Holds(offset)
  {
    hide Cuts, SpansOf, Comment.IsTranslatable;
    var i :| 0 <= i < |c| && c[i].IsTranslatable(u) && c[i].startByte <= offset < c[i].endByte;
    WordsCovered(u, c, i);
    var k :| 0 <= k < |Cuts(u, c)| && In(Cuts(u, c)[k], i);
    SpanAt(u, c, k);
    assert SpansOf(u, c)[k].Holds(offset);
  }

  /** Of a document whose comments were parsed and folded: what is found under a position is right, and every
    * position in a comment with words finds something. */
  lemma CommentsAreHit(u: Alphabet, parse: Parser, document: Document, position: Position)
    requires FindsComments(parse)
    requires document.blocks == Extraction(u, parse)(document.language, document.text)
    ensures var c, offset := parse(document.language, document.text), OffsetAt(document.text, position);
      && HitIsRight(document, position, HitAt(document, position))
      && (offset.Some? && InWords(u, c, offset.value) ==> HitAt(document, position).Some?)
  {
    hide SpansOf, OffsetAt, HitAt, Comment.IsTranslatable, PlacesWell, InFile, OnACharacter, InWords;
    ExtractionPlacesWell(u, parse);
    HitExactlyWhen(Extraction(u, parse), document, position);
    var c, offset := parse(document.language, document.text), OffsetAt(document.text, position);
    assert FoundIn(document.text, c);
    if offset.Some? && InWords(u, c, offset.value) { InItsBlock(u, c, offset.value); }
  }
}
