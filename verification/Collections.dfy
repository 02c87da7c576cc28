/** Small things shared by the other modules. */
module Collections {

  datatype Option<+T> = None | Some(value: T)

  lemma SomeElement<T>(s: set<T>) returns (x: T)
    requires s != {}
    ensures x in s
  {
    x :| x in s;
  }

  lemma SomeKey<K, T>(m: map<K, T>) returns (k: K)
    requires m != map[]
    ensures k in m
  {
    assert (forall j :: j !in m) ==> m == map[];
    k :| k in m;
  }

  /** The list names nothing twice. */
  ghost predicate Distinct<T>(s: seq<T>) {
    forall i, j :: 0 <= i < j < |s| ==> s[i] != s[j]
  }
}
