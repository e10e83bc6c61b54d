/** Lookup by id and the key order of PHP's ordered arrays. */
module Collections {
  import opened Records

  predicate Distinct<K(==)>(ks: seq<K>)
  {
    forall i, j :: 0 <= i < j < |ks| ==> ks[i] != ks[j]
  }

  /** Dropping the first element keeps the rest distinct, and the dropped
      element does not occur in the rest. */
  lemma DistinctTail<K>(ks: seq<K>)
    requires Distinct(ks) && ks != []
    ensures Distinct(ks[1..]) && ks[0] !in ks[1..]
  {
    forall i, j | 0 <= i < j < |ks[1..]|
      ensures ks[1..][i] != ks[1..][j]
    {
      assert ks[1..][i] == ks[i + 1] && ks[1..][j] == ks[j + 1];
    }
    assert forall i :: 0 <= i < |ks[1..]| ==> ks[1..][i] == ks[i + 1] != ks[0];
  }

  /** The position of the first occurrence of k in xs. */
  function IndexOf<K(==)>(xs: seq<K>, k: K): (n: nat)
    requires k in xs
    ensures n < |xs| && xs[n] == k
    ensures forall j :: 0 <= j < n ==> xs[j] != k
  {
    if xs[0] == k then 0 else 1 + IndexOf(xs[1..], k)
  }

  /** The distinct elements of xs in the order each first appears: the key
      order of a PHP array whose keys are added as they are met. */
  function FirstEncounter(xs: seq<string>): (ks: seq<string>)
    ensures Distinct(ks)
    ensures forall k :: k in ks <==> k in xs
  {
    if xs == [] then []
    else
      var ks' := FirstEncounter(xs[..|xs| - 1]);
      var x := xs[|xs| - 1];
      assert xs == xs[..|xs| - 1] + [x];
      if x in ks' then ks' else ks' + [x]
  }

  lemma IndexOfInPrefix(p: seq<string>, x: string, k: string)
    requires k in p
    ensures IndexOf(p + [x], k) == IndexOf(p, k)
  {
    var n := IndexOf(p, k);
    assert (p + [x])[n] == k;
  }

  /** The keys FirstEncounter produces are ordered by where each first occurs. */
  lemma {:induction false} FirstEncounterOrder(xs: seq<string>, i: nat, j: nat)
    requires i < j < |FirstEncounter(xs)|
    ensures FirstEncounter(xs)[i] in xs && FirstEncounter(xs)[j] in xs
    ensures IndexOf(xs, FirstEncounter(xs)[i]) < IndexOf(xs, FirstEncounter(xs)[j])
  {
    var p, x := xs[..|xs| - 1], xs[|xs| - 1];
    assert xs == p + [x];
    var ks, ks' := FirstEncounter(xs), FirstEncounter(p);
    if j < |ks'| {
      assert ks[i] == ks'[i] && ks[j] == ks'[j];
      FirstEncounterOrder(p, i, j);
      IndexOfInPrefix(p, x, ks[i]);
      IndexOfInPrefix(p, x, ks[j]);
    } else {
      assert ks[j] == x && x !in p;
      assert ks[i] == ks'[i] && ks[i] in p;
      IndexOfInPrefix(p, x, ks[i]);
      assert forall m :: 0 <= m < |p| ==> xs[m] == p[m] && xs[m] != x;
    }
  }

  /** A PHP array with string keys: the keys in insertion order and the value
      stored under each. */
  datatype OrderedMap<V> = OrderedMap(keys: seq<string>, entries: map<string, V>)
  {
    ghost predicate WellFormed()
    {
      Distinct(keys) && forall k :: k in keys <==> k in entries
    }
  }

  /** The first record whose id is `id`, as a search loop that returns on the
      first match finds it; None where the original returns an empty array. */
  function FirstWithId<T>(xs: seq<T>, idOf: T -> string, id: string): (r: Option<T>)
    ensures r.None? <==> forall i :: 0 <= i < |xs| ==> idOf(xs[i]) != id
    ensures r.Some? ==>
      exists i :: 0 <= i < |xs| && xs[i] == r.value && idOf(xs[i]) == id &&
        forall j :: 0 <= j < i ==> idOf(xs[j]) != id
  {
    if xs == [] then None
    else if idOf(xs[0]) == id then Some(xs[0])
    else
      var r := FirstWithId(xs[1..], idOf, id);
      assert forall i :: 0 < i < |xs| ==> xs[i] == xs[1..][i - 1];
      r
  }
}
