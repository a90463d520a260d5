/** One run of the indexer (`run`): crawl issues and discussions from the
    effective cutoff, merge them over the prior corpus, slim the result in
    place, project it to index records and advance the saved state. */
module Pipeline {
  import opened Types
  import opened Issues
  import opened Discussions
  import opened Corpus
  import opened State
  import opened Outputs
  import opened Seqs

  /** The documents a run fetches: the issue crawl's, then the discussion crawl's. */
  function Fetched(issuePages: seq<seq<RawIssue>>, discussionPages: seq<DiscussionPage>,
                   since: Option<Timestamp>, maxItems: Option<int>): seq<Doc>
    requires Finite(discussionPages)
  {
    Capped(IssueStream(issuePages), maxItems) + Capped(DiscussionStream(discussionPages, since), maxItems)
  }

  /** Every fetched document is an `I` issue from the issue listing or a `D`
      discussion not older than the cutoff; no pull request is ever fetched. */
  lemma FetchedDocs(issuePages: seq<seq<RawIssue>>, discussionPages: seq<DiscussionPage>,
                    since: Option<Timestamp>, maxItems: Option<int>, d: Doc)
    requires Finite(discussionPages) && d in Fetched(issuePages, discussionPages, since, maxItems)
    ensures d.kind != PullRequest
    ensures d.kind == Issue ==> d.id[0] == 'I' && d in IssueStream(issuePages)
    ensures d.kind == Discussion ==>
              d.id[0] == 'D' && d.labels == [] && d in DiscussionStream(discussionPages, since)
  {
    InEither(d, Capped(IssueStream(issuePages), maxItems), Capped(DiscussionStream(discussionPages, since), maxItems));
    if d in Capped(IssueStream(issuePages), maxItems) {
      FetchedIssue(issuePages, maxItems, d);
    } else {
      FetchedDiscussion(discussionPages, since, maxItems, d);
    }
  }

  lemma FetchedIssue(issuePages: seq<seq<RawIssue>>, maxItems: Option<int>, d: Doc)
    requires d in Capped(IssueStream(issuePages), maxItems)
    ensures d.kind == Issue && d.id[0] == 'I' && d in IssueStream(issuePages)
  {
    InPrefix(d, Capped(IssueStream(issuePages), maxItems), IssueStream(issuePages));
    StreamHasOnlyIssues(issuePages, d);
  }

  lemma FetchedDiscussion(discussionPages: seq<DiscussionPage>, since: Option<Timestamp>, maxItems: Option<int>, d: Doc)
    requires Finite(discussionPages) && d in Capped(DiscussionStream(discussionPages, since), maxItems)
    ensures d.kind == Discussion && d.id[0] == 'D' && d.labels == [] && d in DiscussionStream(discussionPages, since)
  {
    InPrefix(d, Capped(DiscussionStream(discussionPages, since), maxItems), DiscussionStream(discussionPages, since));
    DiscussionDocShape(discussionPages, since, d);
  }

  /** When the discussions arrive most recently updated first, as the API
      orders them, the fetched documents are those the source's own
      discussion walk returns. */
  lemma FetchedAsWrittenWhenDescending(issuePages: seq<seq<RawIssue>>, discussionPages: seq<DiscussionPage>,
                                       since: Option<Timestamp>, maxItems: Option<int>)
    requires Finite(discussionPages) && Descending(NodesOf(discussionPages, Reach(discussionPages)))
    ensures Fetched(issuePages, discussionPages, since, maxItems)
            == Capped(IssueStream(issuePages), maxItems) + Capped(AsWrittenStream(discussionPages, since), maxItems)
  {
    AsWrittenMatchesWhenDescending(discussionPages, since);
  }

  /** A run over scripted answers of the remote API. `prior` is the corpus
      of the previous run (from the cache, or else the published copy) and
      `now` the time the run ends. */
  method Run(state: PipelineState, full: bool, prior: seq<Doc>,
             issuePages: seq<seq<RawIssue>>, discussionPages: seq<DiscussionPage>,
             maxItems: Option<int>, now: Timestamp)
    returns (corpus: seq<Doc>, records: seq<IndexRecord>, next: PipelineState)
    requires Finite(discussionPages)
    ensures var since := EffectiveSince(full, state);
            var merged := Merge(prior, Fetched(issuePages, discussionPages, since, maxItems), since);
            |corpus| == |merged| && forall i :: 0 <= i < |merged| ==> corpus[i] == Slim(merged[i])
    ensures DistinctIds(corpus) && forall i :: 0 <= i < |corpus| ==> Slimmed(corpus[i])
    ensures forall i :: 0 <= i < |corpus| ==> corpus[i].excerpt.Some?
    ensures records == IndexRecords(corpus)
    ensures next == NextState(state, corpus, EffectiveSince(full, state), now)
  {
    var since := EffectiveSince(full, state);
    var fetched := Crawl(issuePages, discussionPages, since, maxItems);
    var merged := Merge(prior, fetched, since);
    MergeAsMap(prior, fetched, since);

    corpus := SlimCorpus(merged);

    records := IndexRecords(corpus);
    next := NextState(state, corpus, since, now);
  }

  /** Both crawls, one after the other (the source runs them concurrently;
      they share nothing). */
  method Crawl(issuePages: seq<seq<RawIssue>>, discussionPages: seq<DiscussionPage>,
               since: Option<Timestamp>, maxItems: Option<int>)
    returns (fetched: seq<Doc>)
    requires Finite(discussionPages)
    ensures fetched == Fetched(issuePages, discussionPages, since, maxItems)
  {
    var issues, _ := CrawlIssues(issuePages, since, maxItems);
    var discussions, _ := CrawlDiscussions(discussionPages, since, maxItems);
    fetched := issues + discussions;
  }

  /** The merged dictionary's values as a list, slimmed in place. */
  method SlimCorpus(merged: seq<Doc>) returns (corpus: seq<Doc>)
    requires DistinctIds(merged)
    ensures |corpus| == |merged| && forall i :: 0 <= i < |merged| ==> corpus[i] == Slim(merged[i])
    ensures DistinctIds(corpus) && forall i :: 0 <= i < |corpus| ==> Slimmed(corpus[i])
  {
    var docs := new Doc[|merged|](i requires 0 <= i < |merged| => merged[i]);
    SlimAll(docs);
    corpus := docs[..];
    SlimKeepsIds(merged, corpus);
  }

  /** Slimming leaves every id where it was. */
  lemma SlimKeepsIds(merged: seq<Doc>, corpus: seq<Doc>)
    requires DistinctIds(merged)
    requires |corpus| == |merged| && forall i :: 0 <= i < |merged| ==> corpus[i] == Slim(merged[i])
    ensures DistinctIds(corpus)
  {
    assert forall i :: 0 <= i < |merged| ==> corpus[i].id == merged[i].id;
  }
}
