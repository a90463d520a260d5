# gh-docs-index: a verified model of the GitHub crawl-merge-index run

`scripts/build_github_index.py` builds a search index of a repository's
GitHub issues and discussions. One run does five things. It reads the saved
state and decides the cutoff `since`. It crawls the REST issue listing and
the GraphQL discussion listing from that cutoff. It merges the fresh
documents over the corpus of the previous run. It slims every document to a
400-character excerpt and projects the corpus to the records of a Lunr
index. It saves the new state, whose cutoff is the latest update time in
the corpus.

This project models that run in Dafny and proves what each step promises.

- `types.dfy` (`Types`) holds the document record and the `max_items` cap.
  `Capped` is the part of an item stream that a capped crawl returns.
- `seqs.dfy` (`Seqs`) holds the small facts about prefixes and membership
  of sequences that the crawl proofs share.
- `text.dfy` (`Text`) models `excerpt`: whitespace runs collapsed, the ends
  stripped, the result cut to `n` characters. It is proved equal to the
  words of the text joined by single spaces, and splitting that join gives
  the words back.
- `decimal.dfy` (`Decimal`) models `str()` of an integer issue id. It
  proves the rendering injective, so distinct issues get distinct `I` ids.
- `retry.dfy` (`Retry`) models `_request_json`. The method walks a script of
  replies, with up to five attempts and sleeps of 1, 2, 4, ... seconds after
  rate-limit or gateway statuses.
- `issues.dfy` (`Issues`) models `crawl_issues` as a loop over scripted
  pages. Its result is proved equal to a specification stream: the non-pull-
  request records of every page before the first empty one, cut by the cap.
- `discussions.dfy` (`Discussions`) models `crawl_discussions` twice. One
  version follows the source as written; the other follows the evidently
  intended walk (see Findings). Lemmas relate the two.
- `corpus.dfy` (`Corpus`) models Python's insertion-ordered dictionaries as
  sequences of documents with distinct ids. The merge `{**prior, **current}`
  is proved to be the right-biased map union, and the prior order is kept.
- `state.dfy` (`State`) models the choice of `since` and the next saved state.
- `outputs.dfy` (`Outputs`) slims an array of documents in place and builds
  the index records.
- `pipeline.dfy` (`Pipeline`) ties one run together.

Timestamps are integers. The GitHub APIs report times in one canonical UTC
form (`YYYY-MM-DDTHH:MM:SSZ`). In that form string order is time order, so
the source's `isoparse` comparison and its `max` over `updated_at` strings
both become integer comparisons.

## Model

| member | source | states |
|---|---|---|
| Types.CapLimit | scripts/build_github_index.py:116-117 | the cap is active exactly when `max_items` is present and non-zero; a positive cap is the limit; a negative cap stops after the first appended item |
| Types.Capped | scripts/build_github_index.py:116-117 | a capped crawl returns a prefix of the uncapped stream, of length min(stream length, limit), and the whole stream when there is no cap |
| Types.CapHitIsLimit | scripts/build_github_index.py:159-160 | once an item is held, the source's `max_items and len(out) >= max_items` fires exactly when the crawl is no longer below its cap |
| Types.CappedAtLimit | scripts/build_github_index.py:116-117 | a crawl that returns as soon as it reaches the cap holds exactly the capped stream |
| Text.SliceTo | scripts/build_github_index.py:52 | Python's `s[:n]`: a prefix of `s`, of length min(len, n) for n ≥ 0 and len + n (at least 0) for negative n |
| Text.TrimStart | scripts/build_github_index.py:51 | stripping the front leaves no leading whitespace and shortens a text that begins with whitespace |
| Text.TrimEnd | scripts/build_github_index.py:51 | stripping the back gives a prefix with no trailing whitespace |
| Text.StripPadding | scripts/build_github_index.py:51 | `Strip` (`strip()`) removes exactly the whitespace padding around a core that starts and ends with non-whitespace |
| Text.CollapseAsWords | scripts/build_github_index.py:51 | `Collapse` (`re.sub(r"\s+", " ", t)`) of a text without leading whitespace is its words joined by single spaces, plus one space if it ended with whitespace |
| Text.NormalizeIsJoinedWords | scripts/build_github_index.py:51 | `Normalize` (collapse, then strip) of any text is `" ".join(text.split())`, i.e. `JoinSpaced(Words(text))` |
| Text.JoinIsTidy | scripts/build_github_index.py:51 | `JoinSpaced` (`" ".join`) of words has no whitespace at either end, no two whitespace characters in a row, only ' ' as whitespace, and is empty only for no words |
| Text.WordsOfJoin | scripts/build_github_index.py:184 | `Words` (`str.split()`) undoes `JoinSpaced`: splitting words joined by spaces gives those words back |
| Text.Words | scripts/build_github_index.py:184 | `str.split()` yields only words: non-empty runs without whitespace |
| Text.NormalizeIdempotent | scripts/build_github_index.py:51 | normalising a normalised text changes nothing |
| Text.Excerpt | scripts/build_github_index.py:50-52 | a missing or empty body gives ""; the excerpt has at most `n` characters, no leading whitespace, no two whitespace characters in a row and only ' ' as whitespace; it is the first `n` characters of the words of the body joined by single spaces |
| Decimal.NatToString | scripts/build_github_index.py:107 | the rendering of a natural number is a non-empty string of decimal digits |
| Decimal.IntToString | scripts/build_github_index.py:107 | `str(i)`: decimal digits for i ≥ 0, a minus sign then digits for negative i |
| Decimal.ParseNatToString | scripts/build_github_index.py:107 | reading the digits back gives the number |
| Decimal.ParseIntToString | scripts/build_github_index.py:107 | `int(str(i)) == i` for every integer, negative ones included |
| Decimal.IntToStringInjective | scripts/build_github_index.py:107 | distinct integers render as distinct strings |
| Retry.RequestJson | scripts/build_github_index.py:71-84 | one to five attempts; every attempt but the last got 429/502/503/504; a client failure is a transport error; five transient replies raise the last status; otherwise a 2xx reply gives its body and any other status raises; sleep k is 2^k seconds, one per transient reply |
| Retry.SleepTotal | scripts/build_github_index.py:78-79 | doubling sleeps 1, 2, 4, ... add up to one less than the next sleep |
| Retry.RequestSleepBound | scripts/build_github_index.py:73-79 | one request sleeps at most 31 seconds in all |
| Issues.PageQuery | scripts/build_github_index.py:91-98 | page `k` is requested with `per_page` 100, page number `k` and the cutoff exactly when one is set |
| Issues.LabelNames | scripts/build_github_index.py:112 | the label list is the labels' names, in order |
| Issues.ToIssueDoc | scripts/build_github_index.py:106-115 | a non-pull-request record becomes an issue document with id `I` + str(id); number, title, url and update time copied; labels the label names in order (none when missing); body the record's body, "" when missing; no excerpt yet |
| Issues.IssueDocs | scripts/build_github_index.py:106-115 | the documents of some records, one per record, in order |
| Issues.PageIssues | scripts/build_github_index.py:102-105 | a page keeps no pull request and at most its own records (with PageIssuesMembers: exactly its non-pull-request records) |
| Issues.FirstEmpty | scripts/build_github_index.py:96-101 | the first empty page: every page before it is non-empty |
| Issues.CrawlIssues | scripts/build_github_index.py:86-119 | the crawl returns the capped issue stream; it requests pages 1, 2, ... with the query of each page; every page before the last requested one was non-empty; a crawl that ends below its cap ended on an empty page |
| Issues.CollectPage | scripts/build_github_index.py:102-117 | one page appends the documents of its non-pull-request records in order and stops exactly when the cap is reached |
| Issues.PageIssuesMembers | scripts/build_github_index.py:102-105 | a page keeps a record exactly when the record is on the page and is not a pull request |
| Issues.StreamHasOnlyIssues | scripts/build_github_index.py:102-115 | every document of the stream is an `I`-prefixed issue built from a non-pull-request record of a page before the first empty one |
| Issues.StreamHasAllIssues | scripts/build_github_index.py:96-115 | every non-pull-request record of a page before the first empty one is in the stream |
| Issues.IssueIdsDistinct | scripts/build_github_index.py:107 | two issue documents share an id only when their records share an id |
| Discussions.ToDiscussionDoc | scripts/build_github_index.py:149-158 | a node becomes a discussion document with id `D` + node id, no labels, its number, title, url and update time, and body its body text, "" when missing |
| Discussions.Docs | scripts/build_github_index.py:149-158 | the documents of some nodes, one per node, in order |
| Discussions.FirstStale | scripts/build_github_index.py:145-148 | the position of the first node older than the cutoff: every node before it is current |
| Discussions.Reach | scripts/build_github_index.py:162-163 | pagination that follows `hasNextPage` visits every page up to the first without a next page |
| Discussions.RequestCursors | scripts/build_github_index.py:140-163 | the first request has no cursor; each later request carries the end cursor of the page before |
| Discussions.CollectNodes | scripts/build_github_index.py:145-160 | one page appends the documents of its nodes up to the first stale one, and stops exactly when the cap is reached |
| Discussions.CrawlDiscussions | scripts/build_github_index.py:121-164 | the intended walk returns the capped documents of the longest current prefix of all reachable nodes; it requests pages in cursor order; every page before the last one requested was current throughout; a walk that ends below its cap ended on the last page or on a page holding a stale node |
| Discussions.WalkPage | scripts/build_github_index.py:143-163 | one page of the intended walk: at the cap it returns the capped stream; on a stale node it stops with the whole current prefix; otherwise it goes on with the next cursor |
| Discussions.CrawlDiscussionsAsWritten | scripts/build_github_index.py:121-164 | the source's walk returns the capped documents of each reachable page cut at its own first stale node; it requests every reachable page unless the cap stops it |
| Discussions.WalkPageAsWritten | scripts/build_github_index.py:143-163 | one page of the source's walk: nodes up to the first stale one, after which `hasNextPage` alone decides whether the walk goes on |
| Discussions.AsWrittenPageStep | scripts/build_github_index.py:162-163 | after a page, the source's walk requests another one exactly when that page had a next page |
| Discussions.AsWrittenNodesAgree | scripts/build_github_index.py:145-148 | when no current node follows a stale one, cutting each page at its own stale node keeps what cutting the whole walk at its first stale node keeps |
| Discussions.AsWrittenMatchesWhenDescending | scripts/build_github_index.py:123-148 | for nodes in descending update order, the source's walk returns the same documents as the intended one |
| Discussions.EarlyExitIgnored | scripts/build_github_index.py:147-163 | two concrete inputs: one where the first page holds a stale node but a second page is still reached, and one where the source returns a newer node behind a stale one that the intended walk leaves out |
| Discussions.DiscussionDocShape | scripts/build_github_index.py:145-158 | every crawled discussion document has a `D` id and no labels, and comes from a reachable node that is not older than the cutoff |
| Corpus.IndexOf | scripts/build_github_index.py:215-216 | the position of an id in an ordered dictionary, or its length when absent |
| Corpus.Put | scripts/build_github_index.py:215 | assigning a key adds it to the key set, keeps the order of the existing keys and keeps the keys distinct |
| Corpus.PutAll | scripts/build_github_index.py:216 | `{**base, **incoming}` has the union of the key sets, keeps the base keys first in their order, and keeps the keys distinct |
| Corpus.IndexById | scripts/build_github_index.py:206 | `{d["id"]: d for d in docs}` has distinct keys and exactly the ids of the documents |
| Corpus.Merge | scripts/build_github_index.py:214-217 | the merged dictionary never repeats an id; with a cutoff its ids are the prior ids and the fetched ids; without one, only the fetched ids (map laws in MergeAsMap) |
| Corpus.AsMap | scripts/build_github_index.py:215-217 | the dictionary's map view has exactly the documents' ids as keys |
| Corpus.AsMapPutAll | scripts/build_github_index.py:216 | as a map, `{**base, **incoming}` is the union in which the incoming documents win |
| Corpus.IndexByIdAsMap | scripts/build_github_index.py:206 | building the dictionary keeps, for each id, the last document with that id |
| Corpus.MergeAsMap | scripts/build_github_index.py:214-217 | the merged corpus never repeats an id; with a cutoff it is the prior map updated by the fetched one; without a cutoff it is the fetched map alone |
| Corpus.IncrementalMerge | scripts/build_github_index.py:216-217 | an incremental merge keeps every prior id and adds every fetched one; a shared id holds the fetched document; a prior-only id keeps its prior document; the prior documents keep their positions at the front |
| Corpus.FullMerge | scripts/build_github_index.py:216 | a full run keeps nothing of the prior corpus |
| State.EffectiveSince | scripts/build_github_index.py:199 | a run has a cutoff exactly when it is not `--full` and a cutoff was saved; the cutoff is the saved one |
| State.MaxUpdated | scripts/build_github_index.py:229 | the latest update time is at least every document's and is attained by one |
| State.NewSince | scripts/build_github_index.py:229 | the next cutoff is the latest update time of the corpus, or the current cutoff (failing that, the current time) when the corpus is empty |
| State.NextState | scripts/build_github_index.py:229-231 | the saved state records the run's time and the new cutoff |
| State.NewSinceCovers | scripts/build_github_index.py:229 | no document of the corpus is newer than the next cutoff |
| State.IncrementalRunExample | scripts/build_github_index.py:199-229 | a concrete incremental run: prior I1, fetched D9, merged I1 then D9, next cutoff D9's update time |
| Outputs.SlimAsWritten | scripts/build_github_index.py:168-169 | the source's slimming removes the body and stores the excerpt of the body (of "" when there is none), changing nothing else |
| Outputs.Slim | scripts/build_github_index.py:167-169 | intended slimming: the result has no body and has an excerpt; a body gives its excerpt; a document already slimmed keeps its excerpt; nothing else changes |
| Outputs.SlimAll | scripts/build_github_index.py:168-169 | every document of the array is replaced in place by its intended slimming `Slim` (the source's own step is SlimAsWritten; see Findings) |
| Outputs.UpdateEach | scripts/build_github_index.py:168-169 | the in-place loop over the list: every element is replaced by its image, front to back |
| Outputs.SlimAgreesOnCrawled | scripts/build_github_index.py:169 | on a freshly crawled document the source's slimming and the intended one agree |
| Outputs.SlimIdempotent | scripts/build_github_index.py:167-169 | slimming a slimmed document changes nothing |
| Outputs.SlimAsWrittenWipesExcerpt | scripts/build_github_index.py:169 | applying the source's slimming again to a document it slimmed replaces a non-empty excerpt with "" |
| Outputs.IndexRecordOf | scripts/build_github_index.py:180-185 | the record holds the document's id, title and excerpt and `" ".join(labels)` for any labels, spaces inside labels included |
| Outputs.LabelsRoundTrip | scripts/build_github_index.py:184 | when no label contains whitespace, splitting the joined labels field gives the labels back |
| Outputs.IndexRecords | scripts/build_github_index.py:177-187 | one index record per document, in order, with its id, title and excerpt and its labels joined by single spaces, so that splitting gives them back when no label contains whitespace |
| Pipeline.Crawl | scripts/build_github_index.py:209-211 | the fetched documents are the capped issue stream followed by the capped discussion stream of the intended walk (the source's own walk is Discussions.CrawlDiscussionsAsWritten; see Findings) |
| Pipeline.FetchedDocs | scripts/build_github_index.py:209-215 | every fetched document is an `I` issue of the issue stream or a `D` discussion of the discussion stream with no labels; none is a pull request |
| Pipeline.FetchedAsWrittenWhenDescending | scripts/build_github_index.py:209-211 | for discussions in descending update order the fetched documents are exactly what the source's own discussion walk returns |
| Pipeline.SlimCorpus | scripts/build_github_index.py:166-169 | the corpus is the merged one with each document given its intended slimming `Slim`, ids still distinct (the source's own step is SlimAsWritten; see Findings) |
| Pipeline.SlimKeepsIds | scripts/build_github_index.py:168-169 | slimming leaves every id where it was |
| Pipeline.Run | scripts/build_github_index.py:191-232 | the written corpus is the merge of the fetched documents over the prior corpus from the effective cutoff, slimmed; its ids are distinct; the index records are projected from it; the next state is computed from it |

## Left out

- HTTP transport, headers, timeouts and `auth_headers`: each page answer is a parameter, already decoded.
- The retry wrapper stands alone. The crawls take their pages as successful answers, so a failed page request, a JSON decode error and a missing key in the answer are not propagated through them.
- Concurrency: the two crawls run one after the other. They share no state, so `asyncio.gather` returns the same lists.
- Sleeping: the waits are returned as whole seconds and not taken.
- File I/O: `load_state`, `save_state`, `load_cached_docs`, `save_cached_docs` and the JSON output files. `load_state` lets a parse error escape and `load_cached_docs` turns one into an empty list; neither is modelled.
- The seed from the published copy (`fetch_seed_from_ghpages`): the prior corpus is a parameter of the run.
- The clock: one `now` parameter stands for both clock reads.
- The `GH_TOKEN` check and exit, `argparse`/`main`, and the progress prints.
- The Lunr index itself (stemming, serialisation): the model stops at the records handed to it.
- `isoparse` and timestamp strings: timestamps are integers, as explained above. A saved cutoff that is an empty string counts as no cutoff, which `Option` stands for.
- Splitting the repository slug into owner and name, and the query text: only the cursor varies between requests.
- Aliasing between the dictionaries and the documents they share: documents are values.
- Issues.ToIssueDoc: keeps the source's pull-request branch, which the filter in front of it never reaches.
- Text.Excerpt: the exact result is stated only for n ≥ 0; the source always passes 400.
- Pipeline.Run: uses the intended discussion walk and the intended slimming (see Findings), not the source's.
- Pipeline.Crawl: composes the intended discussion walk, not the source's; Pipeline.FetchedAsWrittenWhenDescending shows the two agree when the discussions arrive newest first.
- Pipeline.SlimCorpus: slims with the intended `Slim`, not the source's `SlimAsWritten`; the two agree on every freshly crawled document (Outputs.SlimAgreesOnCrawled) and differ on documents carried over from the previous run.
- Outputs.SlimAll: applies the intended `Slim`, not the source's `SlimAsWritten`, for the same reason.

## Findings

| source | as written | input that shows it | evidently intended | confidence | as-written member | corrected member |
|---|---|---|---|---|---|---|
| scripts/build_github_index.py:147-163 | a node older than the cutoff sets `has_next` to false and leaves the page, but the `pageInfo` assignment after the page sets it again | cutoff 10; page 1 holds a node updated at 5 and has a next page; page 2 holds a node updated at 20. The source requests page 2 and returns that node. The intended walk stops after page 1 and returns nothing. With page 2's node at 4, both return nothing but the source still requests page 2 | stop the walk at the first node older than the cutoff | high, not executed | Discussions.CrawlDiscussionsAsWritten (exhibited by Discussions.EarlyExitIgnored) | Discussions.CrawlDiscussions (related by Discussions.AsWrittenMatchesWhenDescending) |
| scripts/build_github_index.py:169 | slimming pops `body` with a default of "" and stores the excerpt of what it popped; the documents carried over from the previous run were written slimmed, with an excerpt and no body | a document with body "hello" is slimmed to excerpt "hello"; on the next incremental run it is not fetched again, so it is slimmed again and its excerpt becomes "" | keep the excerpt of a document that has no body | high, not executed | Outputs.SlimAsWritten (exhibited by Outputs.SlimAsWrittenWipesExcerpt) | Outputs.Slim (proved by Outputs.SlimIdempotent and Outputs.SlimAgreesOnCrawled) |
