/** The records the chunking pipeline works on: a layout element extracted
    from a PDF page by the external parser, the numbered snapshot of an element
    stored with a chunk, and the chunk itself. */
module Layout {

  /** Page numbers reported by the layout parser start at 1. */
  type PageNumber = n: int | 1 <= n witness 1

  /** The element categories the filters distinguish: the parser's
      "UncategorizedText" tag and every other tag. */
  datatype Category = UncategorizedText | OtherCategory(tag: string)

  /** One text element of a page.  `xl` and `xr` are the integer parts of the
      x coordinates of the first and third corner points of its bounding box
      (its left and right edges); `filename` is the provenance metadata. */
  datatype Element = Element(
    id: string,
    page: PageNumber,
    xl: int,
    xr: int,
    category: Category,
    text: string,
    filename: string)

  /** The snapshot of an element stored with a chunk, carrying its position
      `num` in the filtered page. */
  datatype SourceElement = SourceElement(element: Element, num: nat)

  /** A window of consecutive filtered elements: their newline-joined text and
      their snapshots, in order. */
  datatype Chunk = Chunk(txt: string, sourceElements: seq<SourceElement>)

  /** The exceptions the chunking pipeline can raise, as values:
      `max()` of an empty sequence, the index past the end read when a left
      sidebar runs to the last element, and `range()` with a zero step. */
  datatype ChunkError = EmptyDocument | CaptionOutOfRange | ZeroStride

  function Texts(es: seq<Element>): (r: seq<string>)
    ensures |r| == |es|
    ensures forall i :: 0 <= i < |es| ==> r[i] == es[i].text
  {
    seq(|es|, i requires 0 <= i < |es| => es[i].text)
  }

  function SourceTexts(ws: seq<SourceElement>): (r: seq<string>)
    ensures |r| == |ws|
    ensures forall i :: 0 <= i < |ws| ==> r[i] == ws[i].element.text
  {
    seq(|ws|, i requires 0 <= i < |ws| => ws[i].element.text)
  }
}
