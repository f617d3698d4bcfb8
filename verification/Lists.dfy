/** What lists of any kind have in common: no element twice, one put in, one taken out. */
module Lists {

  ghost predicate Distinct<T>(s: seq<T>) {
    forall i, j {:trigger s[i], s[j]} :: 0 <= i < j < |s| ==> s[i] != s[j]
  }

  lemma HeadIn<T>(s: seq<T>)
    ensures s != [] ==> s[0] in s
  {
  }

  function InsertedAt<T>(s: seq<T>, k: nat, x: T): seq<T>
    requires k <= |s|
  {
    s[..k] + [x] + s[k..]
  }

  function RemovedAt<T>(s: seq<T>, k: nat): seq<T>
    requires k < |s|
  {
    s[..k] + s[k + 1..]
  }

  lemma RemoveUndoesInsert<T>(s: seq<T>, k: nat, x: T)
    requires k <= |s|
    ensures RemovedAt(InsertedAt(s, k, x), k) == s
  {
    assert RemovedAt(InsertedAt(s, k, x), k) == s[..k] + s[k..];
  }

  lemma InsertUndoesRemove<T>(s: seq<T>, k: nat)
    requires k < |s|
    ensures InsertedAt(RemovedAt(s, k), k, s[k]) == s
  {
    assert s == s[..k] + [s[k]] + s[k + 1..];
  }

  /** An element taken out of a list without repetitions is the only one that is gone. */
  lemma DistinctRemovedAt<T>(s: seq<T>, k: nat)
    requires k < |s| && Distinct(s)
    ensures Distinct(RemovedAt(s, k))
    ensures forall x {:trigger x in RemovedAt(s, k)} {:trigger x in s} :: x in RemovedAt(s, k) <==> x in s && x != s[k]
  {
    forall x | x in s && x != s[k] ensures x in RemovedAt(s, k) {
      var i :| 0 <= i < |s| && s[i] == x;
      assert RemovedAt(s, k)[if i < k then i else i - 1] == x;
    }
  }
}
