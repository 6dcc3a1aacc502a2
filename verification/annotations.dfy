/** Running-annotation removal over a whole document (`remove_annotation`):
    a text that occurs on uncategorized elements at least half as many times
    as the highest page number is taken for a repeated header or footer, and
    every element carrying that exact text is dropped, whatever its category. */
module Annotations {
  import opened Results
  import opened Seqs
  import opened Layout

  /** The fixed threshold of `count / page_num >= 0.5`. */
  const AnnotationRatio: real := 0.5

  /** `max(e.metadata.page_number for e in elements)`; it exists only for a
      non-empty document. */
  function MaxPage(s: seq<Element>): (m: PageNumber)
    requires |s| > 0
    ensures forall i :: 0 <= i < |s| ==> s[i].page <= m
    ensures exists i :: 0 <= i < |s| && s[i].page == m
  {
    if |s| == 1 then s[0].page
    else
      var m := MaxPage(s[1..]);
      assert forall i :: 1 <= i < |s| ==> s[i] == s[1..][i - 1];
      if s[0].page > m then s[0].page else m
  }

  /** The Python code's `Counter` entry for `t`: the number of uncategorized
      elements whose text is exactly `t` (occurrences, not distinct pages). */
  function UncategorizedCount(s: seq<Element>, t: string): (n: nat)
    ensures n <= |s|
  {
    if |s| == 0 then 0
    else (if s[0].category == UncategorizedText && s[0].text == t then 1 else 0)
         + UncategorizedCount(s[1..], t)
  }

  /** `count / page_num >= 0.5`, in exact arithmetic. */
  predicate IsAnnotation(s: seq<Element>, t: string)
    requires |s| > 0
  {
    (UncategorizedCount(s, t) as real) / (MaxPage(s) as real) >= AnnotationRatio
  }

  /** The list comprehension's test `e.text not in rm_text`. */
  function NotAnnotation(s: seq<Element>): Element -> bool
    requires |s| > 0
  {
    (e: Element) => !IsAnnotation(s, e.text)
  }

  /** The threshold in whole numbers: the ratio reaches one half exactly when
      twice the count reaches the page number. */
  lemma ThresholdIsHalf(count: nat, pages: PageNumber)
    ensures (count as real) / (pages as real) >= AnnotationRatio <==> 2 * count >= pages
  {
    var q := (count as real) / (pages as real);
    assert q * (pages as real) == count as real;
    if q >= AnnotationRatio {
      assert q * (pages as real) >= AnnotationRatio * (pages as real);
    } else {
      assert q * (pages as real) < AnnotationRatio * (pages as real);
    }
  }

  /** `remove_annotation(elements)`; an empty document fails like `max()` of
      an empty sequence. */
  function RemoveAnnotation(s: seq<Element>): (r: Result<seq<Element>, ChunkError>)
    ensures r.Failure? <==> |s| == 0
    ensures r.Failure? ==> r.error == EmptyDocument
    ensures r.Success? ==> IsSubsequence(r.value, s)
    ensures r.Success? ==>
              forall i :: 0 <= i < |s| ==>
                (s[i] in r.value <==> 2 * UncategorizedCount(s, s[i].text) < MaxPage(s))
    ensures r.Success? ==>
              forall e :: multiset(r.value)[e] ==
                if 2 * UncategorizedCount(s, e.text) < MaxPage(s) then multiset(s)[e] else 0
  {
    if |s| == 0 then Failure(EmptyDocument)
    else
      var keep := NotAnnotation(s);
      FilterIsSubsequence(s, keep);
      FilterCounts(s, keep);
      forall e
        ensures keep(e) <==> 2 * UncategorizedCount(s, e.text) < MaxPage(s)
      {
        ThresholdIsHalf(UncategorizedCount(s, e.text), MaxPage(s));
      }
      forall i | 0 <= i < |s|
        ensures keep(s[i]) <==> 2 * UncategorizedCount(s, s[i].text) < MaxPage(s)
      {
        ThresholdIsHalf(UncategorizedCount(s, s[i].text), MaxPage(s));
      }
      Success(Filter(s, keep))
  }

  /** The count is of occurrences, not of pages: an uncategorized text
      printed twice on the first page of a document of at most four pages is
      an annotation and is removed, although it appears on one page only,
      while a categorized element is never removed. */
  lemma TwiceOnOnePageIsAnnotation(x1: Element, x2: Element, body: Element)
    requires x1.category == UncategorizedText && x2.category == UncategorizedText
    requires body.category != UncategorizedText
    requires x1.text == x2.text && body.text != x1.text
    requires x1.page <= body.page && x2.page <= body.page && body.page <= 4
    ensures RemoveAnnotation([x1, x2, body]) == Success([body])
  {
    var s := [x1, x2, body];
    var t := x1.text;
    assert MaxPage(s[1..]) == body.page;
    assert MaxPage(s) == body.page;
    assert s[1..] == [x2, body] && s[1..][1..] == [body] && s[1..][1..][1..] == [];
    assert UncategorizedCount(s[1..][1..], t) == 0;
    assert UncategorizedCount(s, t) == 2;
    assert UncategorizedCount(s[1..][1..], body.text) == 0;
    assert UncategorizedCount(s, body.text) == 0;
    ThresholdIsHalf(2, body.page);
    ThresholdIsHalf(UncategorizedCount(s, body.text), body.page);
    var keep := NotAnnotation(s);
    assert !keep(x1) && !keep(x2) && keep(body);
    assert Filter(s, keep) == [body];
  }

  /** The same with concrete elements: "DRAFT" twice on page 1 of a
      document whose last page is 4. */
  lemma CountsOccurrencesNotPages()
    ensures var x1 := Element("a", 1, 0, 10, UncategorizedText, "DRAFT", "f.pdf");
            var x2 := Element("b", 1, 0, 10, UncategorizedText, "DRAFT", "f.pdf");
            var body := Element("c", 4, 0, 10, OtherCategory("Title"), "Terms", "f.pdf");
            RemoveAnnotation([x1, x2, body]) == Success([body])
  {
    var x1 := Element("a", 1, 0, 10, UncategorizedText, "DRAFT", "f.pdf");
    var x2 := Element("b", 1, 0, 10, UncategorizedText, "DRAFT", "f.pdf");
    var body := Element("c", 4, 0, 10, OtherCategory("Title"), "Terms", "f.pdf");
    assert "Terms"[0] != "DRAFT"[0];
    TwiceOnOnePageIsAnnotation(x1, x2, body);
  }

}
