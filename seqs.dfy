/** Facts about sequences, prefixes and membership that the crawl proofs share. */
module Seqs {

  /** A prefix of `b` is a prefix of anything that extends `b`. */
  lemma PrefixThenMore<T>(a: seq<T>, b: seq<T>, c: seq<T>)
    requires a <= b
    ensures a <= b + c
  {
    assert forall i :: 0 <= i < |b| ==> (b + c)[i] == b[i];
  }

  /** Prefixes survive a common front. */
  lemma PrefixBoth<T>(a: seq<T>, b: seq<T>, c: seq<T>)
    requires b <= c
    ensures a + b <= a + c
  {
    assert forall i :: 0 <= i < |b| ==> (a + b)[|a| + i] == b[i] && (a + c)[|a| + i] == c[i];
  }

  /** A prefix that reaches one element further pins down that element. */
  lemma PrefixNext<T>(a: seq<T>, b: seq<T>, j: nat, all: seq<T>)
    requires j < |b| && a + b[..j + 1] <= all
    ensures a + b[..j] <= all && |a + b[..j]| < |all| && all[|a + b[..j]|] == b[j]
  {
    assert (a + b[..j + 1])[|a| + j] == b[j];
    assert forall i :: 0 <= i < |a + b[..j]| ==> (a + b[..j])[i] == (a + b[..j + 1])[i];
  }

  /** Being a prefix is transitive. */
  lemma PrefixTrans<T>(a: seq<T>, b: seq<T>, c: seq<T>)
    requires a <= b && b <= c
    ensures a <= c
  {
  }

  /** An element of the back part is an element of the whole. */
  lemma InRight<T>(x: T, a: seq<T>, b: seq<T>)
    requires x in b
    ensures x in a + b
  {
    var i :| 0 <= i < |b| && b[i] == x;
    assert (a + b)[|a| + i] == x;
  }

  /** An element of a concatenation comes from one of its parts. */
  lemma InEither<T>(x: T, a: seq<T>, b: seq<T>)
    requires x in a + b
    ensures x in a || x in b
  {
    var i :| 0 <= i < |a + b| && (a + b)[i] == x;
    if i >= |a| {
      assert b[i - |a|] == x;
    }
  }

  /** An element of a prefix is an element of the longer sequence. */
  lemma InPrefix<T>(x: T, a: seq<T>, b: seq<T>)
    requires a <= b && x in a
    ensures x in b
  {
    var i :| 0 <= i < |a| && a[i] == x;
    assert b[i] == x;
  }
}
