/** The REST issue crawl (`crawl_issues`): pages 1, 2, 3, ... of the
    repository's issue listing, pull requests dropped, each issue turned into
    an `I`-prefixed document, stopping at the first empty page or at the cap. */
module Issues {
  import opened Types
  import opened Decimal
  import opened Seqs

  datatype RawLabel = RawLabel(name: string)

  /** One record of the REST issue listing. `labels` and `body` may be
      missing; `pullRequest` says whether the record carries a
      `pull_request` key. */
  datatype RawIssue = RawIssue(
    id: int,
    number: int,
    title: string,
    htmlUrl: string,
    labels: Option<seq<RawLabel>>,
    updatedAt: Timestamp,
    body: Option<string>,
    pullRequest: bool)

  /** The query parameters of one page request. */
  datatype IssueQuery = IssueQuery(
    state: string,
    perPage: nat,
    sort: string,
    direction: string,
    since: Option<Timestamp>,
    page: nat)

  const PerPage: nat := 100

  /** The parameters sent for page `page`; the cutoff is sent only when set. */
  function PageQuery(since: Option<Timestamp>, page: nat): (q: IssueQuery)
    ensures q.page == page && q.since == since && q.perPage == PerPage
  {
    IssueQuery("all", PerPage, "updated", "desc", since, page)
  }

  function LabelNames(labels: seq<RawLabel>): (names: seq<string>)
    ensures |names| == |labels|
    ensures forall i :: 0 <= i < |labels| ==> names[i] == labels[i].name
  {
    if labels == [] then [] else [labels[0].name] + LabelNames(labels[1..])
  }

  /** The document built from one record (the source keeps a pull-request
      branch here, which the filter in front of it never lets through). */
  function ToIssueDoc(it: RawIssue): (d: Doc)
    ensures !it.pullRequest ==> d.kind == Issue && |d.id| >= 2 && d.id[0] == 'I' && d.id[1..] == IntToString(it.id)
    ensures d.number == it.number && d.title == it.title && d.url == it.htmlUrl && d.updatedAt == it.updatedAt
    ensures d.labels == LabelNames(it.labels.GetOr([]))
    ensures d.body == Some(it.body.GetOr("")) && d.excerpt.None?
  {
    var isPr := it.pullRequest;
    Doc(
      if !isPr then "I" + IntToString(it.id) else "P" + IntToString(it.id),
      if isPr then PullRequest else Issue,
      it.number,
      it.title,
      it.htmlUrl,
      LabelNames(it.labels.GetOr([])),
      it.updatedAt,
      Some(it.body.GetOr("")),
      None)
  }

  /** The documents built from some records, in order. */
  function IssueDocs(rs: seq<RawIssue>): (ds: seq<Doc>)
    ensures |ds| == |rs|
    ensures forall i :: 0 <= i < |rs| ==> ds[i] == ToIssueDoc(rs[i])
  {
    seq(|rs|, i requires 0 <= i < |rs| => ToIssueDoc(rs[i]))
  }

  /** The records of one page that the crawl keeps: those that are not pull
      requests, in order. */
  function PageIssues(records: seq<RawIssue>): (rs: seq<RawIssue>)
    ensures |rs| <= |records|
    ensures forall i :: 0 <= i < |rs| ==> !rs[i].pullRequest
  {
    if records == [] then []
    else
      var it := records[|records| - 1];
      PageIssues(records[..|records| - 1]) + (if it.pullRequest then [] else [it])
  }

  /** What the server answers for the 0-based page index `k`: the listing
      is exhausted after the last page given. */
  function PageAt(pages: seq<seq<RawIssue>>, k: nat): seq<RawIssue>
  {
    if k < |pages| then pages[k] else []
  }

  /** The index of the first empty page: the crawl requests pages up to and
      including it. */
  function FirstEmpty(pages: seq<seq<RawIssue>>): (k: nat)
    ensures k <= |pages|
    ensures PageAt(pages, k) == []
    ensures forall i :: 0 <= i < k ==> pages[i] != []
  {
    if pages == [] || pages[0] == [] then 0
    else
      var k := 1 + FirstEmpty(pages[1..]);
      assert forall i :: 1 <= i < k ==> pages[i] == pages[1..][i - 1];
      k
  }

  /** The kept records of the first `k` pages, in order. */
  function Stream(pages: seq<seq<RawIssue>>, k: nat): seq<RawIssue>
    requires k <= |pages|
  {
    if k == 0 then [] else Stream(pages, k - 1) + PageIssues(pages[k - 1])
  }

  /** Every record an uncapped crawl keeps. */
  function IssueRecords(pages: seq<seq<RawIssue>>): seq<RawIssue>
  {
    Stream(pages, FirstEmpty(pages))
  }

  /** Every document an uncapped crawl would return. */
  function IssueStream(pages: seq<seq<RawIssue>>): seq<Doc>
  {
    IssueDocs(IssueRecords(pages))
  }

  /** `crawl_issues` over a scripted listing: the documents it returns and
      the page requests it makes. */
  method CrawlIssues(pages: seq<seq<RawIssue>>, since: Option<Timestamp>, maxItems: Option<int>)
    returns (out: seq<Doc>, queries: seq<IssueQuery>)
    ensures out == Capped(IssueStream(pages), maxItems)
    ensures |queries| >= 1
    ensures forall i :: 0 <= i < |queries| ==> queries[i] == PageQuery(since, i + 1)
    ensures forall k :: 0 <= k < |queries| - 1 ==> PageAt(pages, k) != []
    ensures Below(maxItems, |out|) ==> PageAt(pages, |queries| - 1) == []
  {
    out, queries := [], [];
    var page := 1;
    while true
      invariant 1 <= page <= FirstEmpty(pages) + 1
      invariant |queries| == page - 1
      invariant forall i :: 0 <= i < |queries| ==> queries[i] == PageQuery(since, i + 1)
      invariant out == IssueDocs(Stream(pages, page - 1))
      invariant Below(maxItems, |out|)
      decreases FirstEmpty(pages) + 1 - page
    {
      queries := queries + [PageQuery(since, page)];
      var data := PageAt(pages, page - 1);
      if data == [] {
        LastPage(pages, page - 1, out, maxItems);
        return;
      }
      assert page - 1 < FirstEmpty(pages);
      ghost var taken;
      var capped;
      out, capped, taken := CollectPage(data, out, maxItems);
      if capped {
        CappedPage(pages, page - 1, taken, out, maxItems);
        return;
      }
      StreamStep(pages, page - 1, taken);
      page := page + 1;
    }
  }

  /** The `for it in data` loop of `crawl_issues`: appends the page's issues
      to `out0`, and reports whether the cap fired (the source returns at
      that point). `taken` is how many records were read. */
  method CollectPage(data: seq<RawIssue>, out0: seq<Doc>, maxItems: Option<int>)
    returns (out: seq<Doc>, capped: bool, ghost taken: nat)
    requires Below(maxItems, |out0|)
    ensures taken <= |data| && out == out0 + IssueDocs(PageIssues(data[..taken]))
    ensures capped <==> !Below(maxItems, |out|)
    ensures capped ==> Below(maxItems, |out| - 1)
    ensures !capped ==> taken == |data|
  {
    out, capped, taken := out0, false, 0;
    var j := 0;
    while j < |data|
      invariant 0 <= j <= |data|
      invariant out == out0 + IssueDocs(PageIssues(data[..j]))
      invariant Below(maxItems, |out|)
    {
      var it := data[j];
      PageIssuesStep(data, j);
      var isPr := it.pullRequest;
      if !isPr {
        AppendDoc(out0, PageIssues(data[..j]), it);
        out := out + [ToIssueDoc(it)];
        CapHitIsLimit(maxItems, |out|);
        if CapHit(maxItems, |out|) {
          capped, taken := true, j + 1;
          return;
        }
      }
      j := j + 1;
    }
    taken := j;
  }

  // ---------------------------------------------------------------------
  // Lemmas

  lemma AppendDoc(out0: seq<Doc>, rs: seq<RawIssue>, it: RawIssue)
    ensures out0 + IssueDocs(rs) + [ToIssueDoc(it)] == out0 + IssueDocs(rs + [it])
  {
    assert IssueDocs(rs + [it]) == IssueDocs(rs) + [ToIssueDoc(it)];
  }

  lemma PageIssuesStep(data: seq<RawIssue>, j: nat)
    requires j < |data|
    ensures PageIssues(data[..j + 1])
            == PageIssues(data[..j]) + if data[j].pullRequest then [] else [data[j]]
  {
    assert data[..j + 1][..j] == data[..j];
  }

  lemma StreamStep(pages: seq<seq<RawIssue>>, k: nat, taken: nat)
    requires k < |pages| && taken == |pages[k]|
    ensures IssueDocs(Stream(pages, k)) + IssueDocs(PageIssues(pages[k][..taken]))
            == IssueDocs(Stream(pages, k + 1))
  {
    assert pages[k][..taken] == pages[k];
    IssueDocsAppend(Stream(pages, k), PageIssues(pages[k]));
  }

  /** A crawl that meets an empty page below its cap holds the whole stream. */
  lemma LastPage(pages: seq<seq<RawIssue>>, k: nat, out: seq<Doc>, maxItems: Option<int>)
    requires k <= FirstEmpty(pages) && PageAt(pages, k) == []
    requires out == IssueDocs(Stream(pages, k)) && Below(maxItems, |out|)
    ensures k == FirstEmpty(pages) && out == Capped(IssueStream(pages), maxItems)
  {
    CappedBelowLimit(out, maxItems);
  }

  /** A crawl stopped by the cap in the middle of page `k` holds the capped stream. */
  lemma CappedPage(pages: seq<seq<RawIssue>>, k: nat, taken: nat, out: seq<Doc>, maxItems: Option<int>)
    requires k < FirstEmpty(pages) && taken <= |pages[k]|
    requires out == IssueDocs(Stream(pages, k)) + IssueDocs(PageIssues(pages[k][..taken]))
    requires !Below(maxItems, |out|) && Below(maxItems, |out| - 1)
    ensures out == Capped(IssueStream(pages), maxItems)
  {
    StreamPrefix(pages, k, taken);
    IssueDocsAppend(Stream(pages, k), PageIssues(pages[k][..taken]));
    IssueDocsPrefix(Stream(pages, k) + PageIssues(pages[k][..taken]), IssueRecords(pages));
    CappedAtLimit(out, IssueStream(pages), maxItems);
  }

  lemma IssueDocsAppend(a: seq<RawIssue>, b: seq<RawIssue>)
    ensures IssueDocs(a + b) == IssueDocs(a) + IssueDocs(b)
  {
  }

  lemma IssueDocsPrefix(a: seq<RawIssue>, b: seq<RawIssue>)
    requires a <= b
    ensures IssueDocs(a) <= IssueDocs(b)
  {
  }

  lemma {:induction false} PageIssuesPrefix(records: seq<RawIssue>, j: nat)
    requires j <= |records|
    ensures PageIssues(records[..j]) <= PageIssues(records)
    decreases |records| - j
  {
    if j < |records| {
      var r' := records[..|records| - 1];
      assert records[..j] == r'[..j];
      PageIssuesPrefix(r', j);
    } else {
      assert records[..j] == records;
    }
  }

  lemma {:induction false} StreamGrows(pages: seq<seq<RawIssue>>, k: nat, m: nat)
    requires k <= m <= |pages|
    ensures Stream(pages, k) <= Stream(pages, m)
    decreases m - k
  {
    if k < m {
      StreamGrows(pages, k, m - 1);
      PrefixThenMore(Stream(pages, k), Stream(pages, m - 1), PageIssues(pages[m - 1]));
    }
  }

  /** What the crawl holds in the middle of page `k` is a prefix of the whole stream. */
  lemma StreamPrefix(pages: seq<seq<RawIssue>>, k: nat, j: nat)
    requires k < FirstEmpty(pages) && j <= |pages[k]|
    ensures Stream(pages, k) + PageIssues(pages[k][..j]) <= IssueRecords(pages)
  {
    PageIssuesPrefix(pages[k], j);
    StreamGrows(pages, k + 1, FirstEmpty(pages));
  }

  /** The page a record of the stream comes from. */
  lemma {:induction false} StreamSource(pages: seq<seq<RawIssue>>, k: nat, r: RawIssue) returns (p: nat)
    requires k <= |pages| && r in Stream(pages, k)
    ensures p < k && r in PageIssues(pages[p])
  {
    assert Stream(pages, k) == Stream(pages, k - 1) + PageIssues(pages[k - 1]);
    if r in PageIssues(pages[k - 1]) {
      p := k - 1;
    } else {
      p := StreamSource(pages, k - 1, r);
    }
  }

  /** Every record a page before the first empty one keeps is in the stream. */
  lemma StreamComplete(pages: seq<seq<RawIssue>>, k: nat, p: nat, r: RawIssue)
    requires p < k <= |pages| && r in PageIssues(pages[p])
    ensures r in Stream(pages, k)
  {
    StreamGrows(pages, p + 1, k);
    assert Stream(pages, p + 1) == Stream(pages, p) + PageIssues(pages[p]);
    InRight(r, Stream(pages, p), PageIssues(pages[p]));
    InPrefix(r, Stream(pages, p + 1), Stream(pages, k));
  }

  /** A page keeps exactly its records that are not pull requests. */
  lemma {:induction false} PageIssuesMembers(records: seq<RawIssue>, r: RawIssue)
    ensures r in PageIssues(records) <==> r in records && !r.pullRequest
  {
    if records != [] {
      var front := records[..|records| - 1];
      PageIssuesMembers(front, r);
      assert records == front + [records[|records| - 1]];
    }
  }

  /** The crawl never returns a pull request: every document is an issue
      whose identifier is `I` followed by the record's id, built from a
      record of a page before the first empty one. */
  lemma StreamHasOnlyIssues(pages: seq<seq<RawIssue>>, d: Doc)
    requires d in IssueStream(pages)
    ensures d.kind == Issue && |d.id| >= 2 && d.id[0] == 'I'
    ensures exists p, r :: 0 <= p < FirstEmpty(pages) && r in pages[p]
                           && !r.pullRequest && d == ToIssueDoc(r)
  {
    var rs := IssueRecords(pages);
    var i :| 0 <= i < |rs| && IssueStream(pages)[i] == d;
    var p := StreamSource(pages, FirstEmpty(pages), rs[i]);
    PageIssuesMembers(pages[p], rs[i]);
  }

  /** Conversely, every issue record of a page before the first empty one
      becomes a document of the uncapped stream. */
  lemma StreamHasAllIssues(pages: seq<seq<RawIssue>>, p: nat, r: RawIssue)
    requires p < FirstEmpty(pages) && r in pages[p] && !r.pullRequest
    ensures ToIssueDoc(r) in IssueStream(pages)
  {
    PageIssuesMembers(pages[p], r);
    StreamComplete(pages, FirstEmpty(pages), p, r);
    var i :| 0 <= i < |IssueRecords(pages)| && IssueRecords(pages)[i] == r;
    assert IssueStream(pages)[i] == ToIssueDoc(r);
  }

  /** Two issue documents share an identifier only if they come from records
      with the same id. */
  lemma IssueIdsDistinct(a: RawIssue, b: RawIssue)
    requires !a.pullRequest && !b.pullRequest
    requires ToIssueDoc(a).id == ToIssueDoc(b).id
    ensures a.id == b.id
  {
    IntToStringInjective(a.id, b.id);
  }
}
