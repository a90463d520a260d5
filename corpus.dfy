/** The document dictionaries of a run, keyed by document id.

    A Python dict keeps its keys in first-insertion order and holds the last
    value written to each key. It is modelled as a sequence of documents
    with distinct ids, in that order; `AsMap` forgets the order. */
module Corpus {
  import opened Types

  function IdSet(ds: seq<Doc>): set<string>
  {
    set i | 0 <= i < |ds| :: ds[i].id
  }

  predicate DistinctIds(ds: seq<Doc>)
  {
    forall i, j :: 0 <= i < j < |ds| ==> ds[i].id != ds[j].id
  }

  /** Position of the document with this id, or `|ds|` when there is none. */
  function IndexOf(ds: seq<Doc>, id: string): (k: nat)
    ensures k <= |ds|
    ensures k < |ds| ==> ds[k].id == id
    ensures forall i :: 0 <= i < k ==> ds[i].id != id
  {
    if ds == [] then 0
    else if ds[0].id == id then 0
    else 1 + IndexOf(ds[1..], id)
  }

  /** `m[d["id"]] = d`: overwrite in place when the id is present,
      otherwise add at the end. */
  function Put(ds: seq<Doc>, d: Doc): (r: seq<Doc>)
    ensures IdSet(r) == IdSet(ds) + {d.id}
    ensures |ds| <= |r| && forall i :: 0 <= i < |ds| ==> r[i].id == ds[i].id
    ensures DistinctIds(ds) ==> DistinctIds(r)
  {
    var k := IndexOf(ds, d.id);
    if k < |ds| then
      var r := ds[k := d];
      assert forall i :: 0 <= i < |r| ==> r[i].id == ds[i].id;
      assert IdSet(r) == IdSet(ds);
      r
    else
      var r := ds + [d];
      assert r[|ds|].id == d.id;
      assert forall i :: 0 <= i < |ds| ==> r[i] == ds[i];
      r
  }

  /** Writes every document of `incoming` into `base`, in order. */
  function PutAll(base: seq<Doc>, incoming: seq<Doc>): (r: seq<Doc>)
    ensures IdSet(r) == IdSet(base) + IdSet(incoming)
    ensures |base| <= |r| && forall i :: 0 <= i < |base| ==> r[i].id == base[i].id
    ensures DistinctIds(base) ==> DistinctIds(r)
    decreases |incoming|
  {
    if incoming == [] then base
    else
      var front := incoming[..|incoming| - 1];
      assert IdSet(incoming) == IdSet(front) + {incoming[|incoming| - 1].id} by {
        assert forall i :: 0 <= i < |front| ==> front[i] == incoming[i];
      }
      Put(PutAll(base, front), incoming[|incoming| - 1])
  }

  /** `{d["id"]: d for d in ds}`. */
  function IndexById(ds: seq<Doc>): (r: seq<Doc>)
    ensures DistinctIds(r) && IdSet(r) == IdSet(ds)
  {
    PutAll([], ds)
  }

  /** The dictionary `{d["id"]: d for d in ds}` without its order: the last
      document with an id wins. */
  function AsMap(ds: seq<Doc>): (m: map<string, Doc>)
    ensures m.Keys == IdSet(ds)
  {
    if ds == [] then map[]
    else
      var front := ds[..|ds| - 1];
      assert IdSet(ds) == IdSet(front) + {ds[|ds| - 1].id} by {
        assert forall i :: 0 <= i < |front| ==> front[i] == ds[i];
      }
      AsMap(front)[ds[|ds| - 1].id := ds[|ds| - 1]]
  }

  /** The merge of a run: incoming documents over the prior corpus when the run
      is incremental (`since` set), the incoming documents alone otherwise. */
  function Merge(prior: seq<Doc>, incoming: seq<Doc>, since: Option<Timestamp>): (r: seq<Doc>)
    ensures DistinctIds(r)
    ensures since.Some? ==> IdSet(r) == IdSet(prior) + IdSet(incoming)
    ensures since.None? ==> IdSet(r) == IdSet(incoming)
  {
    var current := IndexById(incoming);
    if since.Some? then PutAll(IndexById(prior), current) else current
  }

  // ---------------------------------------------------------------------
  // Laws

  /** In a dictionary without repeated ids each document is found under its id. */
  lemma {:induction false} AsMapAt(ds: seq<Doc>, i: nat)
    requires DistinctIds(ds) && i < |ds|
    ensures ds[i].id in AsMap(ds) && AsMap(ds)[ds[i].id] == ds[i]
  {
    var front := ds[..|ds| - 1];
    if i < |front| {
      assert DistinctIds(front);
      assert front[i] == ds[i];
      AsMapAt(front, i);
    }
  }

  /** Where `Put` leaves each document. */
  lemma PutAt(ds: seq<Doc>, d: Doc)
    ensures var r := Put(ds, d);
            (forall i :: 0 <= i < |ds| && ds[i].id != d.id ==> r[i] == ds[i])
            && IndexOf(ds, d.id) < |r| && r[IndexOf(ds, d.id)] == d
  {
  }

  lemma AsMapPutValue(ds: seq<Doc>, d: Doc, x: string)
    requires DistinctIds(ds) && x in AsMap(Put(ds, d))
    ensures AsMap(Put(ds, d))[x] == AsMap(ds)[d.id := d][x]
  {
    if x == d.id {
      PutAt(ds, d);
      AsMapAt(Put(ds, d), IndexOf(ds, d.id));
    } else {
      assert x in IdSet(ds);
      var i :| 0 <= i < |ds| && ds[i].id == x;
      AsMapPutOther(ds, d, i);
    }
  }

  lemma AsMapPutOther(ds: seq<Doc>, d: Doc, i: nat)
    requires DistinctIds(ds) && i < |ds| && ds[i].id != d.id
    ensures AsMap(Put(ds, d))[ds[i].id] == AsMap(ds)[ds[i].id]
  {
    PutAt(ds, d);
    AsMapAt(ds, i);
    AsMapAt(Put(ds, d), i);
  }

  /** Writing one document updates the map view at its id and nowhere else. */
  lemma AsMapPut(ds: seq<Doc>, d: Doc)
    requires DistinctIds(ds)
    ensures AsMap(Put(ds, d)) == AsMap(ds)[d.id := d]
  {
    var lhs, rhs := AsMap(Put(ds, d)), AsMap(ds)[d.id := d];
    forall x | x in lhs ensures lhs[x] == rhs[x] {
      AsMapPutValue(ds, d, x);
    }
    SameMaps(lhs, rhs);
  }

  lemma SameMaps<K, V>(a: map<K, V>, b: map<K, V>)
    requires a.Keys == b.Keys && forall k :: k in a ==> a[k] == b[k]
    ensures a == b
  {
  }

  lemma EmptyUnion<K, V>(m: map<K, V>)
    ensures map[] + m == m
  {
  }

  lemma UnionUpdate<K, V>(a: map<K, V>, b: map<K, V>, k: K, v: V)
    ensures (a + b)[k := v] == a + b[k := v]
  {
  }

  /** Writing a sequence of documents is a right-biased map union. */
  lemma {:induction false} AsMapPutAll(base: seq<Doc>, incoming: seq<Doc>)
    requires DistinctIds(base)
    ensures AsMap(PutAll(base, incoming)) == AsMap(base) + AsMap(incoming)
    decreases |incoming|
  {
    if incoming != [] {
      var front, last := incoming[..|incoming| - 1], incoming[|incoming| - 1];
      AsMapPutAll(base, front);
      AsMapPut(PutAll(base, front), last);
      assert AsMap(incoming) == AsMap(front)[last.id := last];
      UnionUpdate(AsMap(base), AsMap(front), last.id, last);
    }
  }

  lemma IndexByIdAsMap(ds: seq<Doc>)
    ensures AsMap(IndexById(ds)) == AsMap(ds)
  {
    AsMapPutAll([], ds);
    EmptyUnion(AsMap(ds));
  }

  /** The merge as a map: a right-biased union when `since` is set, the
      incoming map alone when it is not. The result never repeats an id. */
  lemma MergeAsMap(prior: seq<Doc>, incoming: seq<Doc>, since: Option<Timestamp>)
    ensures DistinctIds(Merge(prior, incoming, since))
    ensures since.Some? ==> AsMap(Merge(prior, incoming, since)) == AsMap(prior) + AsMap(incoming)
    ensures since.None? ==> AsMap(Merge(prior, incoming, since)) == AsMap(incoming)
  {
    IndexByIdAsMap(incoming);
    IndexByIdAsMap(prior);
    AsMapPutAll(IndexById(prior), IndexById(incoming));
  }

  /** An incremental merge keeps every prior id and adds every incoming one; a
      shared id holds the incoming document and a prior-only id keeps its prior
      document. The prior documents keep their positions at the front. */
  lemma IncrementalMerge(prior: seq<Doc>, incoming: seq<Doc>, since: Timestamp)
    ensures var r := Merge(prior, incoming, Some(since));
            IdSet(r) == IdSet(prior) + IdSet(incoming)
            && (forall id :: id in IdSet(incoming) ==> AsMap(r)[id] == AsMap(incoming)[id])
            && (forall id :: id in IdSet(prior) && id !in IdSet(incoming) ==> AsMap(r)[id] == AsMap(prior)[id])
    ensures var p := IndexById(prior);
            var r := Merge(prior, incoming, Some(since));
            |p| <= |r| && forall i :: 0 <= i < |p| ==> r[i].id == p[i].id
  {
    MergeAsMap(prior, incoming, Some(since));
  }

  /** A full run keeps nothing of the prior corpus: its ids are exactly the
      incoming ones and each holds the last incoming document with that id. */
  lemma FullMerge(prior: seq<Doc>, incoming: seq<Doc>)
    ensures Merge(prior, incoming, None) == IndexById(incoming)
    ensures IdSet(Merge(prior, incoming, None)) == IdSet(incoming)
    ensures AsMap(Merge(prior, incoming, None)) == AsMap(incoming)
  {
    MergeAsMap(prior, incoming, None);
  }
}
