/** The GraphQL discussion crawl (`crawl_discussions`): cursor-paginated
    pages of discussions, most recently updated first, each node turned into
    a `D`-prefixed document until a node older than the cutoff is met. */
module Discussions {
  import opened Types
  import opened Seqs

  /** One discussion node of the GraphQL answer. */
  datatype RawDiscussion = RawDiscussion(
    id: string,
    number: int,
    title: string,
    url: string,
    updatedAt: Timestamp,
    bodyText: Option<string>)

  /** One GraphQL answer: the nodes and the `pageInfo` block. */
  datatype DiscussionPage = DiscussionPage(
    nodes: seq<RawDiscussion>,
    hasNextPage: bool,
    endCursor: Option<string>)

  function ToDiscussionDoc(n: RawDiscussion): (d: Doc)
    ensures d.kind == Discussion && d.labels == []
    ensures |d.id| >= 1 && d.id[0] == 'D' && d.id[1..] == n.id
    ensures d.number == n.number && d.title == n.title && d.url == n.url && d.updatedAt == n.updatedAt
    ensures d.body == Some(n.bodyText.GetOr("")) && d.excerpt.None?
  {
    Doc("D" + n.id, Discussion, n.number, n.title, n.url, [], n.updatedAt, Some(n.bodyText.GetOr("")), None)
  }

  function Docs(ns: seq<RawDiscussion>): (ds: seq<Doc>)
    ensures |ds| == |ns|
    ensures forall i :: 0 <= i < |ns| ==> ds[i] == ToDiscussionDoc(ns[i])
  {
    seq(|ns|, i requires 0 <= i < |ns| => ToDiscussionDoc(ns[i]))
  }

  /** A node is kept unless a cutoff is set and the node was updated before it. */
  predicate IsCurrent(since: Option<Timestamp>, n: RawDiscussion)
  {
    !(since.Some? && n.updatedAt < since.value)
  }

  predicate AllCurrent(since: Option<Timestamp>, ns: seq<RawDiscussion>)
  {
    forall i :: 0 <= i < |ns| ==> IsCurrent(since, ns[i])
  }

  /** The position of the first node older than the cutoff (or the length). */
  function FirstStale(since: Option<Timestamp>, ns: seq<RawDiscussion>): (k: nat)
    ensures k <= |ns|
    ensures AllCurrent(since, ns[..k])
    ensures k < |ns| ==> !IsCurrent(since, ns[k])
  {
    if ns == [] || !IsCurrent(since, ns[0]) then 0
    else
      var k := 1 + FirstStale(since, ns[1..]);
      assert forall i :: 1 <= i < k ==> ns[..k][i] == ns[1..][..k - 1][i - 1];
      k
  }

  /** The longest prefix of `ns` whose every node is current. */
  function CurrentPrefix(since: Option<Timestamp>, ns: seq<RawDiscussion>): seq<RawDiscussion>
  {
    ns[..FirstStale(since, ns)]
  }

  /** The server's page sequence is finite: its last page has no next page. */
  predicate Finite(pages: seq<DiscussionPage>)
  {
    |pages| >= 1 && !pages[|pages| - 1].hasNextPage
  }

  /** How many pages following `hasNextPage` visits. */
  function Reach(pages: seq<DiscussionPage>): (k: nat)
    requires Finite(pages)
    ensures 1 <= k <= |pages|
    ensures !pages[k - 1].hasNextPage
    ensures forall i :: 0 <= i < k - 1 ==> pages[i].hasNextPage
  {
    if !pages[0].hasNextPage then 1
    else
      var k := 1 + Reach(pages[1..]);
      assert forall i :: 1 <= i < k ==> pages[i] == pages[1..][i - 1];
      k
  }

  /** The nodes of the first `k` pages, in arrival order. */
  function NodesOf(pages: seq<DiscussionPage>, k: nat): seq<RawDiscussion>
    requires k <= |pages|
  {
    if k == 0 then [] else NodesOf(pages, k - 1) + pages[k - 1].nodes
  }

  /** The `after` cursors of the first `k` requests: none for the first,
      then the end cursor of the page before. */
  function RequestCursors(pages: seq<DiscussionPage>, k: nat): (cs: seq<Option<string>>)
    requires k <= |pages|
    ensures |cs| == k
    ensures k >= 1 ==> cs[0] == None
    ensures forall i :: 1 <= i < k ==> cs[i] == pages[i - 1].endCursor
  {
    if k == 0 then [] else RequestCursors(pages, k - 1) + [if k == 1 then None else pages[k - 2].endCursor]
  }

  /** What the crawl should return without a cap: the documents of the
      longest current prefix of every node the pagination reaches. */
  function DiscussionStream(pages: seq<DiscussionPage>, since: Option<Timestamp>): seq<Doc>
    requires Finite(pages)
  {
    Docs(CurrentPrefix(since, NodesOf(pages, Reach(pages))))
  }

  /** The nodes the source's loop keeps over the first `k` pages: each page
      is cut at its own first stale node, and the walk goes on. */
  function AsWrittenNodes(pages: seq<DiscussionPage>, since: Option<Timestamp>, k: nat): seq<RawDiscussion>
    requires k <= |pages|
  {
    if k == 0 then [] else AsWrittenNodes(pages, since, k - 1) + CurrentPrefix(since, pages[k - 1].nodes)
  }

  /** What the source's crawl returns without a cap. */
  function AsWrittenStream(pages: seq<DiscussionPage>, since: Option<Timestamp>): seq<Doc>
    requires Finite(pages)
  {
    Docs(AsWrittenNodes(pages, since, Reach(pages)))
  }

  /** The `for d in nodes` loop: appends current nodes to `out0` until a stale
      node (`stale`) or the cap (`capped`, where the source returns).
      `taken` is how many nodes were appended. */
  method CollectNodes(nodes: seq<RawDiscussion>, since: Option<Timestamp>, out0: seq<Doc>, maxItems: Option<int>)
    returns (out: seq<Doc>, capped: bool, stale: bool, ghost taken: nat)
    requires Below(maxItems, |out0|)
    ensures taken <= |nodes| && out == out0 + Docs(nodes[..taken]) && AllCurrent(since, nodes[..taken])
    ensures capped <==> !Below(maxItems, |out|)
    ensures capped ==> Below(maxItems, |out| - 1) && !stale
    ensures !capped ==> taken == FirstStale(since, nodes)
    ensures !capped ==> (stale <==> taken < |nodes|)
  {
    out, capped, stale := out0, false, false;
    var j := 0;
    while j < |nodes|
      invariant 0 <= j <= |nodes|
      invariant out == out0 + Docs(nodes[..j]) && AllCurrent(since, nodes[..j])
      invariant Below(maxItems, |out|)
    {
      var d := nodes[j];
      if since.Some? && d.updatedAt < since.value {
        stale := true;
        FirstStaleAt(since, nodes, j);
        taken := j;
        return;
      }
      NodeStep(since, nodes, j, out0);
      out := out + [ToDiscussionDoc(d)];
      CapHitIsLimit(maxItems, |out|);
      if CapHit(maxItems, |out|) {
        capped, taken := true, j + 1;
        return;
      }
      j := j + 1;
    }
    assert nodes[..j] == nodes;
    FirstStaleAt(since, nodes, j);
    taken := j;
  }

  /** `crawl_discussions` as intended: the walk stops for good at the first
      node older than the cutoff. */
  method CrawlDiscussions(pages: seq<DiscussionPage>, since: Option<Timestamp>, maxItems: Option<int>)
    returns (out: seq<Doc>, cursors: seq<Option<string>>)
    requires Finite(pages)
    ensures out == Capped(DiscussionStream(pages, since), maxItems)
    ensures 1 <= |cursors| <= Reach(pages)
    ensures cursors == RequestCursors(pages, |cursors|)
    ensures AllCurrent(since, NodesOf(pages, |cursors| - 1))
    ensures Below(maxItems, |out|) ==>
      !pages[|cursors| - 1].hasNextPage || !AllCurrent(since, pages[|cursors| - 1].nodes)
  {
    out, cursors := [], [];
    ghost var seen: seq<RawDiscussion> := [];
    var cursor: Option<string> := None;
    var hasNext := true;
    var p := 0;
    while hasNext
      invariant hasNext ==> p < Reach(pages) && cursors == RequestCursors(pages, p)
      invariant hasNext ==> cursor == (if p == 0 then None else pages[p - 1].endCursor)
      invariant hasNext ==> seen == NodesOf(pages, p) && AllCurrent(since, seen)
      invariant hasNext ==> out == Docs(seen) && Below(maxItems, |out|)
      invariant !hasNext ==> out == Capped(DiscussionStream(pages, since), maxItems)
      invariant !hasNext ==> 1 <= |cursors| <= Reach(pages) && cursors == RequestCursors(pages, |cursors|)
      invariant !hasNext ==> AllCurrent(since, NodesOf(pages, |cursors| - 1))
      invariant !hasNext ==> Below(maxItems, |out|) ==>
                  !pages[|cursors| - 1].hasNextPage || !AllCurrent(since, pages[|cursors| - 1].nodes)
      decreases Reach(pages) - p, hasNext
    {
      CursorStep(pages, p, cursors, cursor);
      cursors := cursors + [cursor];
      var capped;
      ghost var seen0 := seen;
      out, capped, cursor, hasNext, seen := WalkPage(pages, since, maxItems, p, out, seen);
      if !hasNext {
        WalkDone(pages, since, maxItems, p, seen0, out, seen, cursors, capped);
      }
      p := p + 1;
    }
  }

  /** One page of the intended walk: its nodes, then its `pageInfo`; a stale
      node ends the walk. */
  method WalkPage(pages: seq<DiscussionPage>, since: Option<Timestamp>, maxItems: Option<int>,
                  p: nat, out0: seq<Doc>, ghost seen0: seq<RawDiscussion>)
    returns (out: seq<Doc>, capped: bool, cursor: Option<string>, hasNext: bool, ghost seen: seq<RawDiscussion>)
    requires Finite(pages) && p < Reach(pages)
    requires seen0 == NodesOf(pages, p) && AllCurrent(since, seen0)
    requires out0 == Docs(seen0) && Below(maxItems, |out0|)
    ensures capped ==> out == Capped(DiscussionStream(pages, since), maxItems) && !Below(maxItems, |out|) && !hasNext
    ensures !capped ==> out == Docs(seen) && Below(maxItems, |out|)
    ensures !capped && hasNext ==>
              p + 1 < Reach(pages) && cursor == pages[p].endCursor
              && seen == NodesOf(pages, p + 1) && AllCurrent(since, seen)
    ensures !capped && !hasNext ==>
              seen == CurrentPrefix(since, NodesOf(pages, Reach(pages)))
              && (!pages[p].hasNextPage || !AllCurrent(since, pages[p].nodes))
  {
    var data := pages[p];
    var stale;
    ghost var taken;
    out, capped, stale, taken := CollectNodes(data.nodes, since, out0, maxItems);
    DocsAppend(seen0, data.nodes[..taken]);
    seen := seen0 + data.nodes[..taken];
    cursor := None;
    if capped {
      SeenPrefix(pages, since, p, taken);
      CappedStep(pages, since, maxItems, seen, out);
      hasNext := false;
      return;
    }
    if !stale {
      cursor, hasNext := data.endCursor, data.hasNextPage;
      assert data.nodes[..taken] == data.nodes;
      PageDoneStep(pages, since, p);
    } else {
      hasNext := false;
      StaleStep(pages, since, p, taken);
    }
  }

  /** `crawl_discussions` as the source has it: on a stale node it sets
      `has_next = False` and leaves the page, but the `pageInfo` assignment
      after the page overwrites that flag, so the walk goes on. */
  method CrawlDiscussionsAsWritten(pages: seq<DiscussionPage>, since: Option<Timestamp>, maxItems: Option<int>)
    returns (out: seq<Doc>, cursors: seq<Option<string>>)
    requires Finite(pages)
    ensures out == Capped(AsWrittenStream(pages, since), maxItems)
    ensures 1 <= |cursors| <= Reach(pages)
    ensures cursors == RequestCursors(pages, |cursors|)
    ensures Below(maxItems, |out|) ==> |cursors| == Reach(pages)
  {
    out, cursors := [], [];
    ghost var seen: seq<RawDiscussion> := [];
    var cursor: Option<string> := None;
    var hasNext := true;
    var p := 0;
    while hasNext
      invariant 0 <= p <= Reach(pages) && |cursors| == p
      invariant cursors == RequestCursors(pages, p)
      invariant hasNext <==> p < Reach(pages)
      invariant hasNext ==> cursor == (if p == 0 then None else pages[p - 1].endCursor)
      invariant out == Docs(seen) && seen == AsWrittenNodes(pages, since, p)
      invariant Below(maxItems, |out|)
      decreases Reach(pages) - p
    {
      CursorStep(pages, p, cursors, cursor);
      cursors := cursors + [cursor];
      var capped;
      out, capped, cursor, hasNext, seen := WalkPageAsWritten(pages, since, maxItems, p, out, seen);
      if capped {
        return;
      }
      p := p + 1;
    }
    CappedBelowLimit(out, maxItems);
  }

  /** One page of the source's walk: its nodes up to the first stale one,
      then its `pageInfo`, which decides whether the walk goes on. */
  method WalkPageAsWritten(pages: seq<DiscussionPage>, since: Option<Timestamp>, maxItems: Option<int>,
                           p: nat, out0: seq<Doc>, ghost seen0: seq<RawDiscussion>)
    returns (out: seq<Doc>, capped: bool, cursor: Option<string>, hasNext: bool, ghost seen: seq<RawDiscussion>)
    requires Finite(pages) && p < Reach(pages)
    requires out0 == Docs(seen0) && seen0 == AsWrittenNodes(pages, since, p) && Below(maxItems, |out0|)
    ensures capped ==> out == Capped(AsWrittenStream(pages, since), maxItems) && !Below(maxItems, |out|)
    ensures !capped ==> out == Docs(seen) && seen == AsWrittenNodes(pages, since, p + 1) && Below(maxItems, |out|)
    ensures !capped ==> cursor == pages[p].endCursor && (hasNext <==> p + 1 < Reach(pages))
  {
    var data := pages[p];
    var stale;
    ghost var taken;
    out, capped, stale, taken := CollectNodes(data.nodes, since, out0, maxItems);
    DocsAppend(seen0, data.nodes[..taken]);
    seen := seen0 + data.nodes[..taken];
    cursor, hasNext := None, false;
    if capped {
      AsWrittenCappedStep(pages, since, p, taken);
      CappedStep'(AsWrittenStream(pages, since), AsWrittenNodes(pages, since, Reach(pages)),
                  seen, out, maxItems);
      return;
    }
    if stale {
      hasNext := false;
    }
    cursor, hasNext := data.endCursor, data.hasNextPage;
    AsWrittenPageStep(pages, since, p, taken);
  }

  // ---------------------------------------------------------------------
  // The steps of the two walks

  /** The intended walk stopped after page `p`, at its cap or for good. */
  lemma WalkDone(pages: seq<DiscussionPage>, since: Option<Timestamp>, maxItems: Option<int>, p: nat,
                 seen0: seq<RawDiscussion>, out: seq<Doc>, seen: seq<RawDiscussion>,
                 cursors: seq<Option<string>>, capped: bool)
    requires Finite(pages) && p < Reach(pages) && cursors == RequestCursors(pages, p + 1)
    requires seen0 == NodesOf(pages, p) && AllCurrent(since, seen0)
    requires capped ==> out == Capped(DiscussionStream(pages, since), maxItems) && !Below(maxItems, |out|)
    requires !capped ==> out == Docs(seen) && Below(maxItems, |out|)
    requires !capped ==>
               seen == CurrentPrefix(since, NodesOf(pages, Reach(pages)))
               && (!pages[p].hasNextPage || !AllCurrent(since, pages[p].nodes))
    ensures out == Capped(DiscussionStream(pages, since), maxItems)
    ensures 1 <= |cursors| <= Reach(pages) && cursors == RequestCursors(pages, |cursors|)
    ensures AllCurrent(since, NodesOf(pages, |cursors| - 1))
    ensures Below(maxItems, |out|) ==>
              !pages[|cursors| - 1].hasNextPage || !AllCurrent(since, pages[|cursors| - 1].nodes)
  {
    if !capped {
      CappedBelowLimit(out, maxItems);
    }
  }

  lemma CursorStep(pages: seq<DiscussionPage>, p: nat, cursors: seq<Option<string>>, cursor: Option<string>)
    requires p < |pages| && cursors == RequestCursors(pages, p)
    requires cursor == (if p == 0 then None else pages[p - 1].endCursor)
    ensures cursors + [cursor] == RequestCursors(pages, p + 1)
  {
  }

  lemma NodeStep(since: Option<Timestamp>, nodes: seq<RawDiscussion>, j: nat, out0: seq<Doc>)
    requires j < |nodes| && AllCurrent(since, nodes[..j]) && IsCurrent(since, nodes[j])
    ensures out0 + Docs(nodes[..j]) + [ToDiscussionDoc(nodes[j])] == out0 + Docs(nodes[..j + 1])
    ensures AllCurrent(since, nodes[..j + 1])
  {
    assert nodes[..j + 1] == nodes[..j] + [nodes[j]];
    DocsAppend(nodes[..j], [nodes[j]]);
    AllCurrentAppend(since, nodes[..j], [nodes[j]]);
  }

  /** What the intended walk has kept in the middle of page `p` is a prefix
      of the longest current prefix. */
  lemma SeenPrefix(pages: seq<DiscussionPage>, since: Option<Timestamp>, p: nat, taken: nat)
    requires Finite(pages) && p < Reach(pages) && taken <= |pages[p].nodes|
    requires AllCurrent(since, NodesOf(pages, p)) && AllCurrent(since, pages[p].nodes[..taken])
    ensures NodesOf(pages, p) + pages[p].nodes[..taken] <= CurrentPrefix(since, NodesOf(pages, Reach(pages)))
  {
    var seen := NodesOf(pages, p) + pages[p].nodes[..taken];
    NodesPrefix(pages, p, taken);
    AllCurrentAppend(since, NodesOf(pages, p), pages[p].nodes[..taken]);
    CurrentPrefixKeeps(since, seen, NodesOf(pages, Reach(pages)));
  }

  /** The cap fired in the intended walk. */
  lemma CappedStep(pages: seq<DiscussionPage>, since: Option<Timestamp>, maxItems: Option<int>,
                   seen: seq<RawDiscussion>, out: seq<Doc>)
    requires Finite(pages) && seen <= CurrentPrefix(since, NodesOf(pages, Reach(pages)))
    requires out == Docs(seen) && !Below(maxItems, |out|) && Below(maxItems, |out| - 1)
    ensures out == Capped(DiscussionStream(pages, since), maxItems)
  {
    CappedStep'(DiscussionStream(pages, since), CurrentPrefix(since, NodesOf(pages, Reach(pages))), seen, out, maxItems);
  }

  /** A crawl that stopped at its cap after keeping a prefix of `all` holds
      the capped documents of `all`. */
  lemma CappedStep'(stream: seq<Doc>, all: seq<RawDiscussion>, seen: seq<RawDiscussion>, out: seq<Doc>,
                    maxItems: Option<int>)
    requires stream == Docs(all) && seen <= all
    requires out == Docs(seen) && !Below(maxItems, |out|) && Below(maxItems, |out| - 1)
    ensures out == Capped(stream, maxItems)
  {
    DocsPrefix(seen, all);
    CappedAtLimit(out, stream, maxItems);
  }

  /** Page `p` of the intended walk held a stale node at `taken`. */
  lemma StaleStep(pages: seq<DiscussionPage>, since: Option<Timestamp>, p: nat, taken: nat)
    requires Finite(pages) && p < Reach(pages) && taken < |pages[p].nodes|
    requires AllCurrent(since, NodesOf(pages, p)) && AllCurrent(since, pages[p].nodes[..taken])
    requires !IsCurrent(since, pages[p].nodes[taken])
    ensures NodesOf(pages, p) + pages[p].nodes[..taken] == CurrentPrefix(since, NodesOf(pages, Reach(pages)))
  {
    var a, b, all := NodesOf(pages, p), pages[p].nodes, NodesOf(pages, Reach(pages));
    NodesPrefix(pages, p, taken + 1);
    PrefixNext(a, b, taken, all);
    AllCurrentAppend(since, a, b[..taken]);
    CurrentPrefixStops(since, a + b[..taken], all);
  }

  /** Page `p` of the intended walk was current to its end. */
  lemma PageDoneStep(pages: seq<DiscussionPage>, since: Option<Timestamp>, p: nat)
    requires Finite(pages) && p < Reach(pages)
    requires AllCurrent(since, NodesOf(pages, p)) && AllCurrent(since, pages[p].nodes)
    ensures NodesOf(pages, p) + pages[p].nodes == NodesOf(pages, p + 1)
    ensures AllCurrent(since, NodesOf(pages, p + 1))
    ensures !pages[p].hasNextPage ==>
              p + 1 == Reach(pages) && NodesOf(pages, p + 1) == CurrentPrefix(since, NodesOf(pages, Reach(pages)))
  {
    AllCurrentAppend(since, NodesOf(pages, p), pages[p].nodes);
    if !pages[p].hasNextPage {
      CurrentPrefixAll(since, NodesOf(pages, p + 1));
    }
  }

  /** What the source's walk has kept in the middle of page `p` is a prefix
      of what it keeps in all. */
  lemma AsWrittenCappedStep(pages: seq<DiscussionPage>, since: Option<Timestamp>, p: nat, taken: nat)
    requires Finite(pages) && p < Reach(pages) && taken <= |pages[p].nodes|
    requires AllCurrent(since, pages[p].nodes[..taken])
    ensures AsWrittenNodes(pages, since, p) + pages[p].nodes[..taken] <= AsWrittenNodes(pages, since, Reach(pages))
  {
    CurrentPrefixKeeps(since, pages[p].nodes[..taken], pages[p].nodes);
    AsWrittenGrows(pages, since, p + 1, Reach(pages));
    var a := AsWrittenNodes(pages, since, p);
    PrefixBoth(a, pages[p].nodes[..taken], CurrentPrefix(since, pages[p].nodes));
    PrefixTrans(a + pages[p].nodes[..taken], AsWrittenNodes(pages, since, p + 1),
                AsWrittenNodes(pages, since, Reach(pages)));
  }

  /** Page `p` of the source's walk was cut at its first stale node; its
      `hasNextPage` alone decides whether another page is requested. */
  lemma AsWrittenPageStep(pages: seq<DiscussionPage>, since: Option<Timestamp>, p: nat, taken: nat)
    requires Finite(pages) && p < Reach(pages) && taken == FirstStale(since, pages[p].nodes)
    ensures AsWrittenNodes(pages, since, p) + pages[p].nodes[..taken] == AsWrittenNodes(pages, since, p + 1)
    ensures pages[p].hasNextPage <==> p + 1 < Reach(pages)
  {
  }

  // ---------------------------------------------------------------------
  // Lemmas

  lemma AllCurrentAppend(since: Option<Timestamp>, a: seq<RawDiscussion>, b: seq<RawDiscussion>)
    requires AllCurrent(since, a) && AllCurrent(since, b)
    ensures AllCurrent(since, a + b)
  {
    assert forall i :: |a| <= i < |a + b| ==> (a + b)[i] == b[i - |a|];
  }

  lemma FirstStaleAt(since: Option<Timestamp>, ns: seq<RawDiscussion>, j: nat)
    requires j <= |ns| && AllCurrent(since, ns[..j])
    requires j < |ns| ==> !IsCurrent(since, ns[j])
    ensures FirstStale(since, ns) == j
  {
    var k := FirstStale(since, ns);
    assert forall i :: 0 <= i < j ==> ns[..j][i] == ns[i];
    assert forall i :: 0 <= i < k ==> ns[..k][i] == ns[i];
  }

  lemma DocsAppend(a: seq<RawDiscussion>, b: seq<RawDiscussion>)
    ensures Docs(a + b) == Docs(a) + Docs(b)
  {
  }

  lemma DocsPrefix(a: seq<RawDiscussion>, b: seq<RawDiscussion>)
    requires a <= b
    ensures Docs(a) <= Docs(b)
  {
  }

  lemma {:induction false} NodesGrow(pages: seq<DiscussionPage>, k: nat, m: nat)
    requires k <= m <= |pages|
    ensures NodesOf(pages, k) <= NodesOf(pages, m)
    decreases m - k
  {
    if k < m {
      NodesGrow(pages, k, m - 1);
      PrefixThenMore(NodesOf(pages, k), NodesOf(pages, m - 1), pages[m - 1].nodes);
    }
  }

  /** What the walk has seen in the middle of page `p` is a prefix of all the
      nodes the pagination reaches. */
  lemma NodesPrefix(pages: seq<DiscussionPage>, p: nat, j: nat)
    requires Finite(pages) && p < Reach(pages) && j <= |pages[p].nodes|
    ensures NodesOf(pages, p) + pages[p].nodes[..j] <= NodesOf(pages, Reach(pages))
  {
    var a, b := NodesOf(pages, p), pages[p].nodes;
    NodesGrow(pages, p + 1, Reach(pages));
    assert NodesOf(pages, p + 1) == a + b;
    PrefixBoth(a, b[..j], b);
    PrefixTrans(a + b[..j], a + b, NodesOf(pages, Reach(pages)));
  }

  /** A current prefix of a stream is a prefix of its longest current prefix. */
  lemma CurrentPrefixKeeps(since: Option<Timestamp>, a: seq<RawDiscussion>, s: seq<RawDiscussion>)
    requires a <= s && AllCurrent(since, a)
    ensures a <= CurrentPrefix(since, s)
  {
    assert forall i :: 0 <= i < |a| ==> a[i] == s[i];
    var k := FirstStale(since, s);
    assert |a| <= k;
  }

  /** A current prefix followed by a stale node is the longest current prefix. */
  lemma CurrentPrefixStops(since: Option<Timestamp>, a: seq<RawDiscussion>, s: seq<RawDiscussion>)
    requires a <= s && AllCurrent(since, a) && |a| < |s| && !IsCurrent(since, s[|a|])
    ensures CurrentPrefix(since, s) == a
  {
    assert s[..|a|] == a;
    FirstStaleAt(since, s, |a|);
  }

  lemma CurrentPrefixAll(since: Option<Timestamp>, s: seq<RawDiscussion>)
    requires AllCurrent(since, s)
    ensures CurrentPrefix(since, s) == s
  {
    assert s[..|s|] == s;
    FirstStaleAt(since, s, |s|);
  }

  lemma {:induction false} AsWrittenGrows(pages: seq<DiscussionPage>, since: Option<Timestamp>, k: nat, m: nat)
    requires k <= m <= |pages|
    ensures AsWrittenNodes(pages, since, k) <= AsWrittenNodes(pages, since, m)
    decreases m - k
  {
    if k < m {
      AsWrittenGrows(pages, since, k, m - 1);
      PrefixThenMore(AsWrittenNodes(pages, since, k), AsWrittenNodes(pages, since, m - 1),
                     CurrentPrefix(since, pages[m - 1].nodes));
    }
  }

  // ---------------------------------------------------------------------
  // The source's walk against the intended one

  /** Discussions arrive most recently updated first. */
  predicate Descending(ns: seq<RawDiscussion>)
  {
    forall i, j :: 0 <= i < j < |ns| ==> ns[j].updatedAt <= ns[i].updatedAt
  }

  /** Once a node is older than the cutoff, so is every later one. */
  predicate StaleStays(since: Option<Timestamp>, ns: seq<RawDiscussion>)
  {
    forall i, j :: 0 <= i < j < |ns| && !IsCurrent(since, ns[i]) ==> !IsCurrent(since, ns[j])
  }

  lemma DescendingStaleStays(since: Option<Timestamp>, ns: seq<RawDiscussion>)
    requires Descending(ns)
    ensures StaleStays(since, ns)
  {
  }

  lemma StaleStaysPrefix(since: Option<Timestamp>, a: seq<RawDiscussion>, s: seq<RawDiscussion>)
    requires a <= s && StaleStays(since, s)
    ensures StaleStays(since, a)
  {
    assert forall i :: 0 <= i < |a| ==> a[i] == s[i];
  }

  /** Behind an all-current part the longest current prefix continues into what follows. */
  lemma CurrentPrefixAfterCurrent(since: Option<Timestamp>, a: seq<RawDiscussion>, b: seq<RawDiscussion>)
    requires AllCurrent(since, a)
    ensures CurrentPrefix(since, a + b) == a + CurrentPrefix(since, b)
  {
    var k := FirstStale(since, b);
    var ab := a + b;
    assert ab[..|a| + k] == a + b[..k];
    AllCurrentAppend(since, a, b[..k]);
    if |a| + k < |ab| {
      assert ab[|a| + k] == b[k];
    }
    FirstStaleAt(since, ab, |a| + k);
  }

  /** Once a stale node has been seen, what follows does not matter. */
  lemma CurrentPrefixAfterStale(since: Option<Timestamp>, a: seq<RawDiscussion>, b: seq<RawDiscussion>)
    requires !AllCurrent(since, a)
    ensures CurrentPrefix(since, a + b) == CurrentPrefix(since, a)
  {
    var k := FirstStale(since, a);
    assert k < |a|;
    assert (a + b)[..k] == a[..k];
    assert (a + b)[k] == a[k];
    FirstStaleAt(since, a + b, k);
  }

  lemma {:induction false} AsWrittenNodesAgree(pages: seq<DiscussionPage>, since: Option<Timestamp>, k: nat)
    requires k <= |pages| && StaleStays(since, NodesOf(pages, k))
    ensures AsWrittenNodes(pages, since, k) == CurrentPrefix(since, NodesOf(pages, k))
  {
    if k > 0 {
      var a, b := NodesOf(pages, k - 1), pages[k - 1].nodes;
      assert NodesOf(pages, k) == a + b;
      StaleStaysPrefix(since, a, a + b);
      AsWrittenNodesAgree(pages, since, k - 1);
      if AllCurrent(since, a) {
        CurrentPrefixAfterCurrent(since, a, b);
      } else {
        CurrentPrefixAfterStale(since, a, b);
        NothingAfterStale(since, a, b);
      }
    }
  }

  /** Under `StaleStays`, a part that follows a stale node has no current prefix. */
  lemma NothingAfterStale(since: Option<Timestamp>, a: seq<RawDiscussion>, b: seq<RawDiscussion>)
    requires !AllCurrent(since, a) && StaleStays(since, a + b)
    ensures CurrentPrefix(since, b) == []
  {
    if b != [] {
      var i :| 0 <= i < |a| && !IsCurrent(since, a[i]);
      assert (a + b)[i] == a[i] && (a + b)[|a|] == b[0];
      FirstStaleAt(since, b, 0);
    }
  }

  /** When the nodes really arrive most recently updated first, the source's
      walk returns what the intended one does (it only fetches more pages). */
  lemma AsWrittenMatchesWhenDescending(pages: seq<DiscussionPage>, since: Option<Timestamp>)
    requires Finite(pages) && Descending(NodesOf(pages, Reach(pages)))
    ensures AsWrittenStream(pages, since) == DiscussionStream(pages, since)
  {
    DescendingStaleStays(since, NodesOf(pages, Reach(pages)));
    AsWrittenNodesAgree(pages, since, Reach(pages));
  }

  function ExampleNode(id: string, updatedAt: Timestamp): RawDiscussion
  {
    RawDiscussion(id, 1, "title", "url", updatedAt, None)
  }

  /** Two inputs on which the source's walk and the intended one differ,
      with cutoff 10. In the first, ordered newest first, the first page
      already holds a stale node: the intended walk stops after that page
      while the source's follows `hasNextPage` to the second. In the second,
      a newer node after a stale one is returned by the source's walk only. */
  lemma EarlyExitIgnored()
    ensures var pages := [DiscussionPage([ExampleNode("a", 5)], true, Some("c1")),
                          DiscussionPage([ExampleNode("b", 4)], false, Some("c2"))];
            Finite(pages) && Reach(pages) == 2 && !AllCurrent(Some(10), pages[0].nodes)
    ensures var pages := [DiscussionPage([ExampleNode("a", 5)], true, Some("c1")),
                          DiscussionPage([ExampleNode("b", 20)], false, Some("c2"))];
            Finite(pages)
            && AsWrittenStream(pages, Some(10)) == [ToDiscussionDoc(ExampleNode("b", 20))]
            && DiscussionStream(pages, Some(10)) == []
  {
    var pages := [DiscussionPage([ExampleNode("a", 5)], true, Some("c1")),
                  DiscussionPage([ExampleNode("b", 20)], false, Some("c2"))];
    assert Reach(pages) == 2;
    assert FirstStale(Some(10), pages[0].nodes) == 0;
    assert FirstStale(Some(10), pages[1].nodes) == 1;
    assert NodesOf(pages, 2) == [ExampleNode("a", 5), ExampleNode("b", 20)];
    assert FirstStale(Some(10), NodesOf(pages, 2)) == 0;
    assert AsWrittenNodes(pages, Some(10), 2) == [ExampleNode("b", 20)];
  }

  /** Every document of the crawl is a discussion with a `D`-prefixed
      identifier and no labels, built from a reached node that is not older
      than the cutoff. */
  lemma DiscussionDocShape(pages: seq<DiscussionPage>, since: Option<Timestamp>, d: Doc)
    requires Finite(pages) && d in DiscussionStream(pages, since)
    ensures d.kind == Discussion && d.labels == [] && |d.id| >= 1 && d.id[0] == 'D'
    ensures exists n :: n in NodesOf(pages, Reach(pages)) && IsCurrent(since, n) && d == ToDiscussionDoc(n)
  {
    var s := NodesOf(pages, Reach(pages));
    var c := CurrentPrefix(since, s);
    var i :| 0 <= i < |c| && DiscussionStream(pages, since)[i] == d;
    assert c[i] == s[i];
  }
}
