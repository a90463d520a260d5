/** The output stage: slimming the merged corpus in place and projecting it
    to the records the search index is built from. */
module Outputs {
  import opened Types
  import opened Text

  /** Length of the excerpt kept in place of a document's body. */
  const ExcerptLength := 400

  /** A document of the written corpus: no body, an excerpt. */
  predicate Slimmed(d: Doc)
  {
    d.body.None? && d.excerpt.Some?
  }

  /** What the source does to each document: `body` is popped (an absent
      body reads as "") and its excerpt stored. On a document carried over
      from an earlier run, which has no body but an excerpt, this replaces
      the excerpt with "". */
  function SlimAsWritten(d: Doc): (r: Doc)
    ensures r.body.None? && r.excerpt == Some(Excerpt(d.body, ExcerptLength))
    ensures r.(body := d.body, excerpt := d.excerpt) == d
  {
    d.(body := None, excerpt := Some(Excerpt(d.body, ExcerptLength)))
  }

  /** Slimming as intended: a document with a body gets the excerpt of that
      body; a document already slimmed keeps its excerpt; a document with
      neither gets "". */
  function Slim(d: Doc): (r: Doc)
    ensures Slimmed(r)
    ensures d.body.Some? ==> r.excerpt == Some(Excerpt(d.body, ExcerptLength))
    ensures d.body.None? && d.excerpt.Some? ==> r.excerpt == d.excerpt
    ensures d.body.None? && d.excerpt.None? ==> r.excerpt == Some("")
    ensures r.(body := d.body, excerpt := d.excerpt) == d
  {
    if d.body.Some? then d.(body := None, excerpt := Some(Excerpt(d.body, ExcerptLength)))
    else if d.excerpt.Some? then d
    else d.(excerpt := Some(""))
  }

  /** Slims every document of the corpus in place. */
  method SlimAll(docs: array<Doc>)
    modifies docs
    ensures forall i :: 0 <= i < docs.Length ==> docs[i] == Slim(old(docs[i]))
  {
    UpdateEach(docs, Slim);
  }

  /** Replaces every element of `a` by its image under `f`, front to back. */
  method UpdateEach<T>(a: array<T>, f: T -> T)
    modifies a
    ensures forall i :: 0 <= i < a.Length ==> a[i] == f(old(a[i]))
  {
    for i := 0 to a.Length
      invariant forall k :: 0 <= k < i ==> a[k] == f(old(a[k]))
      invariant forall k :: i <= k < a.Length ==> a[k] == old(a[k])
    {
      a[i] := f(a[i]);
    }
  }

  /** On a freshly crawled document the source and the intended slimming agree. */
  lemma SlimAgreesOnCrawled(d: Doc)
    requires d.body.Some?
    ensures Slim(d) == SlimAsWritten(d)
  {
  }

  /** Slimming a slimmed document changes nothing, so a document carried
      over from run to run keeps its excerpt. */
  lemma SlimIdempotent(d: Doc)
    ensures Slim(Slim(d)) == Slim(d)
  {
  }

  /** The source's slimming, applied again on the next run to a document it
      slimmed, loses the excerpt whenever it was not empty. */
  lemma SlimAsWrittenWipesExcerpt(d: Doc)
    requires Excerpt(d.body, ExcerptLength) != ""
    ensures SlimAsWritten(d).excerpt != Some("")
    ensures SlimAsWritten(SlimAsWritten(d)).excerpt == Some("")
  {
  }

  /** One document of the search index input. */
  datatype IndexRecord = IndexRecord(id: string, title: string, excerpt: string, labels: string)

  /** The index input: id, title and excerpt of each slimmed document, with
      its labels joined by single spaces. */
  function IndexRecords(docs: seq<Doc>): (rs: seq<IndexRecord>)
    requires forall i :: 0 <= i < |docs| ==> docs[i].excerpt.Some?
    ensures |rs| == |docs|
    ensures forall i :: 0 <= i < |docs| ==>
              rs[i].id == docs[i].id && rs[i].title == docs[i].title
              && rs[i].excerpt == docs[i].excerpt.value
              && rs[i].labels == JoinSpaced(docs[i].labels)
              && (AllWords(docs[i].labels) ==> Words(rs[i].labels) == docs[i].labels)
  {
    seq(|docs|, i requires 0 <= i < |docs| => IndexRecordOf(docs[i]))
  }

  /** The index input record of one document: `" ".join(labels)` in the
      labels field, whatever the labels hold. */
  function IndexRecordOf(d: Doc): (r: IndexRecord)
    requires d.excerpt.Some?
    ensures r.id == d.id && r.title == d.title && r.excerpt == d.excerpt.value
    ensures r.labels == JoinSpaced(d.labels)
    ensures AllWords(d.labels) ==> Words(r.labels) == d.labels
  {
    LabelsRoundTrip(d.labels);
    IndexRecord(d.id, d.title, d.excerpt.value, JoinSpaced(d.labels))
  }

  /** Labels without whitespace come back from the joined field by splitting it. */
  lemma LabelsRoundTrip(labels: seq<string>)
    ensures AllWords(labels) ==> Words(JoinSpaced(labels)) == labels
  {
    if AllWords(labels) {
      WordsOfJoin(labels);
    }
  }
}
