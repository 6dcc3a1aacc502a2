/** The server's presentation of the images the processor returns
    (`process_related_documents`): each (message, image) pair becomes a
    supporting document with a labelled text and the image encoded for
    transport.  Rendering the image as PNG and base64 is an external encoder
    passed in as a function. */
module Formatting {
  import opened Results
  import opened Text

  const RelatedDocsLabel := "**Related docs**: "
  const ParagraphBreak := "\n\n"

  /** One entry of the returned list: `full_text` and `image`. */
  datatype SupportingDoc = SupportingDoc(fullText: string, image: Option<string>)

  /** The labelled text of one message. */
  function FullText(message: string): (t: string)
    ensures |t| == |RelatedDocsLabel| + |message| + |ParagraphBreak|
    ensures IsPrefix(RelatedDocsLabel, t)
    ensures t[|RelatedDocsLabel|..|t| - |ParagraphBreak|] == message
    ensures t[|t| - |ParagraphBreak|..] == ParagraphBreak
  {
    RelatedDocsLabel + message + ParagraphBreak
  }

  /** Reads the message back out of a labelled text, if it is one. */
  function RelatedMessage(fullText: string): (m: Option<string>)
    ensures m.Some? ==> FullText(m.value) == fullText
  {
    var n := |fullText|;
    if n >= |RelatedDocsLabel| + |ParagraphBreak|
       && IsPrefix(RelatedDocsLabel, fullText)
       && fullText[n - |ParagraphBreak|..] == ParagraphBreak
    then
      var m := fullText[|RelatedDocsLabel|..n - |ParagraphBreak|];
      assert fullText == fullText[..|RelatedDocsLabel|] + m + fullText[n - |ParagraphBreak|..];
      Some(m)
    else None
  }

  /** The labelled text determines its message. */
  lemma MessageRoundTrip(message: string)
    ensures RelatedMessage(FullText(message)) == Some(message)
  {
    var t := FullText(message);
    assert t[..|RelatedDocsLabel|] == RelatedDocsLabel;
  }

  /** `convert_image_to_base64(img) if img else None`. */
  function EncodeImage<Img>(img: Option<Img>, encode: Img -> string): (r: Option<string>)
    ensures r.Some? <==> img.Some?
    ensures img.Some? ==> r.value == encode(img.value)
  {
    match img
    case Some(i) => Some(encode(i))
    case None => None
  }

  /** `process_related_documents(images)`: one supporting document per pair,
      in order. */
  function ProcessRelatedDocuments<Img>(images: seq<(string, Option<Img>)>, encode: Img -> string)
    : (docs: seq<SupportingDoc>)
    ensures |docs| == |images|
    ensures forall i :: 0 <= i < |docs| ==> RelatedMessage(docs[i].fullText) == Some(images[i].0)
    ensures forall i :: 0 <= i < |docs| ==> (docs[i].image.Some? <==> images[i].1.Some?)
    ensures forall i :: 0 <= i < |docs| && images[i].1.Some? ==> docs[i].image == Some(encode(images[i].1.value))
  {
    if |images| == 0 then []
    else
      var (message, img) := images[0];
      MessageRoundTrip(message);
      [SupportingDoc(FullText(message), EncodeImage(img, encode))]
        + ProcessRelatedDocuments(images[1..], encode)
  }

  /** Processing a list in two parts gives the two results one after the
      other. */
  lemma {:induction false} ProcessAppend<Img>(a: seq<(string, Option<Img>)>, b: seq<(string, Option<Img>)>, encode: Img -> string)
    ensures ProcessRelatedDocuments(a + b, encode)
            == ProcessRelatedDocuments(a, encode) + ProcessRelatedDocuments(b, encode)
  {
    if |a| == 0 {
      assert a + b == b;
    } else {
      assert (a + b)[0] == a[0] && (a + b)[1..] == a[1..] + b;
      ProcessAppend(a[1..], b, encode);
    }
  }
}
