/** Sequences without repetitions. */
module Seqs {
  ghost predicate Distinct<A>(s: seq<A>) {
    forall i, j :: 0 <= i < j < |s| ==> s[i] != s[j]
  }

  function AddNew<A(==)>(xs: seq<A>, x: A): seq<A> {
    if x in xs then xs else xs + [x]
  }

  /** The items of `ns` without repetitions, in the order they first occur. */
  function Dedup<A(==)>(ns: seq<A>): seq<A> {
    if ns == [] then [] else AddNew(Dedup(ns[..|ns| - 1]), ns[|ns| - 1])
  }

  /** Each once, and all of them. */
  lemma {:induction false} DedupMeaning<A>(ns: seq<A>)
    ensures Distinct(Dedup(ns)) && forall x :: x in Dedup(ns) <==> x in ns
  {
    if ns != [] {
      DedupMeaning(ns[..|ns| - 1]);
      assert ns == ns[..|ns| - 1] + [ns[|ns| - 1]];
    }
  }

  /** In the order of their first mention: what is kept of a beginning is the beginning of what is kept. */
  lemma {:induction false} DedupGrows<A>(ns: seq<A>, i: nat)
    requires i <= |ns|
    ensures Dedup(ns[..i]) <= Dedup(ns)
  {
    if i == |ns| {
      assert ns[..i] == ns;
    } else {
      DedupGrows(ns[..|ns| - 1], i);
      assert ns[..|ns| - 1][..i] == ns[..i];
    }
  }
}
