/** The crawl state kept between runs and how a run advances it. */
module State {
  import opened Types
  import opened Corpus

  /** The saved state: the `since` cutoff for the next incremental run and
      the time of the last run (both absent before the first run). */
  datatype PipelineState = PipelineState(since: Option<Timestamp>, lastRun: Option<Timestamp>)

  /** The state used before any run has been saved. */
  const Initial := PipelineState(None, None)

  /** The cutoff a run crawls from: none on a `--full` run, otherwise the
      saved one. */
  function EffectiveSince(full: bool, state: PipelineState): (since: Option<Timestamp>)
    ensures since.Some? <==> !full && state.since.Some?
    ensures since.Some? ==> since == state.since
  {
    if full || state.since.None? then None else state.since
  }

  /** The latest update time among some documents. */
  function MaxUpdated(docs: seq<Doc>): (m: Timestamp)
    requires docs != []
    ensures forall i :: 0 <= i < |docs| ==> docs[i].updatedAt <= m
    ensures exists i :: 0 <= i < |docs| && docs[i].updatedAt == m
  {
    if |docs| == 1 then docs[0].updatedAt
    else
      var rest := MaxUpdated(docs[1..]);
      assert forall i :: 1 <= i < |docs| ==> docs[i] == docs[1..][i - 1];
      if docs[0].updatedAt >= rest then docs[0].updatedAt else rest
  }

  /** The cutoff saved for the next run: the latest update time of the
      merged corpus, or the current cutoff (failing that, the current time)
      when the corpus is empty. */
  function NewSince(merged: seq<Doc>, since: Option<Timestamp>, now: Timestamp): (t: Timestamp)
    ensures merged != [] ==> forall i :: 0 <= i < |merged| ==> merged[i].updatedAt <= t
    ensures merged != [] ==> exists i :: 0 <= i < |merged| && merged[i].updatedAt == t
    ensures merged == [] ==> t == since.GetOr(now)
  {
    if merged == [] then since.GetOr(now) else MaxUpdated(merged)
  }

  /** The state saved at the end of a run. */
  function NextState(state: PipelineState, merged: seq<Doc>, since: Option<Timestamp>, now: Timestamp): (s: PipelineState)
    ensures s.lastRun == Some(now)
    ensures s.since.Some? && s.since.value == NewSince(merged, since, now)
  {
    state.(since := Some(NewSince(merged, since, now)), lastRun := Some(now))
  }

  /** A run that keeps documents never moves the saved cutoff below their
      latest update. */
  lemma NewSinceCovers(merged: seq<Doc>, since: Option<Timestamp>, now: Timestamp, d: Doc)
    requires d in merged
    ensures d.updatedAt <= NewSince(merged, since, now)
  {
  }

  function ExampleDoc(id: string, kind: Kind, updatedAt: Timestamp): Doc
  {
    Doc(id, kind, 1, "title", "url", [], updatedAt, Some(""), None)
  }

  /** An incremental run from 2024-01-01T00:00:00Z (epoch second 1704067200)
      over a corpus holding issue I1 of that time, which fetches only
      discussion D9 updated 2024-06-01T00:00:00Z (1717200000), ends with the
      corpus I1, D9 and the new cutoff 2024-06-01T00:00:00Z. */
  lemma IncrementalRunExample(now: Timestamp)
    ensures var prior := [ExampleDoc("I1", Issue, 1704067200)];
            var fetched := [ExampleDoc("D9", Discussion, 1717200000)];
            var merged := Merge(prior, fetched, Some(1704067200));
            merged == prior + fetched
            && NewSince(merged, Some(1704067200), now) == 1717200000
  {
    var prior := [ExampleDoc("I1", Issue, 1704067200)];
    var fetched := [ExampleDoc("D9", Discussion, 1717200000)];
    SingleIndex(prior[0]);
    SingleIndex(fetched[0]);
    var merged := Merge(prior, fetched, Some(1704067200));
    assert merged == PutAll(prior, fetched);
    assert fetched[..0] == [];
    assert IndexOf(prior, "D9") == 1 by {
      assert prior[0].id != "D9";
      assert prior[1..] == [];
    }
    assert merged == prior + fetched;
    assert MaxUpdated(merged[1..]) == 1717200000;
  }

  lemma SingleIndex(d: Doc)
    ensures IndexById([d]) == [d]
  {
    assert [d][..0] == [];
    assert PutAll([], [d]) == Put([], d);
    assert IndexOf([], d.id) == 0;
  }
}
