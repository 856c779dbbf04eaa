/** Open documents, the comments extracted from them, and the comment a position points into. */
module Documents {
  import opened Positions
  import opened Wrappers

  /** The bytes of a comment block. */
  datatype Span = Span(start: nat, end: nat)
  {
    predicate Holds(offset: nat) { start <= offset < end }
  }

  datatype Range = Range(start: Position, end: Position)

  datatype Hit = Hit(range: Range, block: Span)

  datatype Document = Document(language: string, version: int, text: string, blocks: seq<Span>)

  /** The blocks of a text in a language; none where there is no grammar for it or it fails. */
  type Extractor = (string, string) -> seq<Span>

  function FirstHolding(blocks: seq<Span>, offset: nat): (r: Option<Span>)
    ensures r.Some? ==> r.value in blocks && r.value.Holds(offset)
    ensures r.None? ==> forall k :: 0 <= k < |blocks| ==> !blocks[k].Holds(offset)
  {
    if blocks == [] then None
    else if blocks[0].Holds(offset) then Some(blocks[0])
    else FirstHolding(blocks[1..], offset)
  }

  function HitAt(document: Document, position: Position): Option<Hit> {
    var offset := OffsetAt(document.text, position);
    if offset.None? then None
    else
      var block := FirstHolding(document.blocks, offset.value);
      if block.None? then None
      else
        var start, end := PositionAt(document.text, block.value.start), PositionAt(document.text, block.value.end);
        if start.None? || end.None? then None else Some(Hit(Range(start.value, end.value), block.value))
  }

  class DocumentStore {
    var documents: map<string, Document>
    const extract: Extractor

    /** What is kept of each document's comments is what its text has now. */
    ghost predicate Valid()
      reads this
    {
      forall uri :: uri in documents ==>
        documents[uri].blocks == extract(documents[uri].language, documents[uri].text)
    }

    constructor (extract: Extractor)
      ensures Valid() && documents == map[] && this.extract == extract
    {
      documents, this.extract := map[], extract;
    }

    method Open(uri: string, language: string, version: int, text: string)
      requires Valid()
      modifies this`documents
      ensures Valid()
      ensures documents == old(documents)[uri := Document(language, version, text, extract(language, text))]
    {
      documents := documents[uri := Document(language, version, text, extract(language, text))];
    }

    /** A change for a document that is not open is dropped. */
    method Update(uri: string, version: int, text: string)
      requires Valid()
      modifies this`documents
      ensures Valid()
      ensures uri !in old(documents) ==> documents == old(documents)
      ensures uri in old(documents) ==>
        var language := old(documents)[uri].language;
        documents == old(documents)[uri := Document(language, version, text, extract(language, text))]
    {
      if uri !in documents {
        return;
      }
      var language := documents[uri].language;
      var blocks := extract(language, text);
      documents := documents[uri := documents[uri].(blocks := blocks, version := version, text := text)];
    }

    method Close(uri: string)
      requires Valid()
      modifies this`documents
      ensures Valid() && documents == old(documents) - {uri}
    {
      documents := documents - {uri};
    }

    /** Where the extractor places blocks well, what is found is right: there is a block exactly when the
      * position's offset lies in one, it is the only one, and its range holds the place. */
    method CommentBlockAt(uri: string, position: Position) returns (hit: Option<Hit>)
      requires Valid()
      ensures hit == if uri in documents then HitAt(documents[uri], position) else None
      ensures uri in documents && PlacesWell(extract) ==> HitIsRight(documents[uri], position, hit)
    {
      if uri !in documents {
        return None;
      }
      var document := documents[uri];
      if PlacesWell(extract) { HitExactlyWhen(extract, document, position); }
      var offset := ByteOffsetAt(document.text, position);
      if offset.None? {
        return None;
      }
      for k := 0 to |document.blocks|
        invariant FirstHolding(document.blocks, offset.value) == FirstHolding(document.blocks[k..], offset.value)
      {
        var block := document.blocks[k];
        assert document.blocks[k..][1..] == document.blocks[k + 1..];
        if block.Holds(offset.value) {
          var start, end := PositionAt(document.text, block.start), PositionAt(document.text, block.end);
          return if start.None? || end.None? then None else Some(Hit(Range(start.value, end.value), block));
        }
      }
      return None;
    }
  }

  /** Byte `offset` of `text` is character `k`, or the end. */
  ghost predicate Boundary(text: string, offset: nat, k: nat) { k <= |text| && Bytes(text, k) == offset }

  /** Blocks that begin and end on characters of the text, apart and in order. */
  ghost predicate WellPlaced(text: string, blocks: seq<Span>) {
    && (forall b :: b in blocks ==> exists j, k :: Boundary(text, b.start, j) && Boundary(text, b.end, k))
    && (forall i, j :: 0 <= i < j < |blocks| ==> blocks[i].end <= blocks[j].start)
  }

  /** An extractor that places its blocks so in every text. */
  ghost predicate PlacesWell(extract: Extractor) {
    forall language, text :: WellPlaced(text, extract(language, text))
  }

  /** All of the text has coordinates. */
  ghost predicate Small(text: string) { forall k :: 0 <= k <= |text| ==> Addressable(text, k) }

  /** A hit for exactly the positions whose offset lies in a block; that block, the only one; and, in a text
    * whose coordinates fit, a range that holds the place the position leads to. */
  ghost predicate HitIsRight(document: Document, position: Position, hit: Option<Hit>) {
    var offset := OffsetAt(document.text, position);
    && (hit.Some? <==> offset.Some? && exists k :: 0 <= k < |document.blocks| && document.blocks[k].Holds(offset.value))
    && (hit.Some? ==> forall k :: 0 <= k < |document.blocks| && document.blocks[k].Holds(offset.value) ==>
          document.blocks[k] == hit.value.block)
    && (hit.Some? && Small(document.text) ==>
          var place := Place(document.text, IndexAt(document.text, position).value);
          !place.Before(hit.value.range.start) && place.Before(hit.value.range.end))
  }

  /** A position points into a comment of a document as it is kept, with an extractor that places blocks
    * well, exactly when its offset lies in a block. */
  lemma HitExactlyWhen(extract: Extractor, document: Document, position: Position)
    requires PlacesWell(extract) && document.blocks == extract(document.language, document.text)
    ensures HitIsRight(document, position, HitAt(document, position))
  {
    assert WellPlaced(document.text, document.blocks);
    hide OffsetAt, PositionAt, Place, IndexAt, Bytes, Boundary, Small, PlacesWell;
    var offset := OffsetAt(document.text, position);
    if offset.Some? {
      var block := FirstHolding(document.blocks, offset.value);
      if block.Some? { RangeIs(document, position, block.value); }
    }
  }

  lemma RangeIs(document: Document, position: Position, block: Span)
    requires WellPlaced(document.text, document.blocks) && block in document.blocks
    requires OffsetAt(document.text, position).Some? && block.Holds(OffsetAt(document.text, position).value)
    ensures var start, end := PositionAt(document.text, block.start), PositionAt(document.text, block.end);
      var place := Place(document.text, IndexAt(document.text, position).value);
      && start.Some? && end.Some?
      && (Small(document.text) ==> !place.Before(start.value) && place.Before(end.value))
  {
    var j, k :| Boundary(document.text, block.start, j) && Boundary(document.text, block.end, k);
    var i := IndexAt(document.text, position).value;
    assert Bytes(document.text, j) <= Bytes(document.text, i) < Bytes(document.text, k);
    hide PositionAt, Place, IndexAt, Bytes, OffsetAt, Addressable;
    RoundTrip(document.text, j);
    RoundTrip(document.text, k);
    if i < j { BytesGrow(document.text, i, j); }
    if k < i { BytesGrow(document.text, k, i); }
    RangeHolds(document.text, j, i, k);
  }
}
