/**
 * PHP arrays with string keys: ordered, each key at most once, and
 * `$a[$k] = $v` overwriting in place when `$k` is already there.
 */
module PhpArray {
  import opened Wrappers

  ghost predicate DistinctKeys<V>(a: seq<(string, V)>) {
    forall i, j :: 0 <= i < j < |a| ==> a[i].0 != a[j].0
  }

  /** An associative PHP array, in insertion order. */
  type Arr<V> = a: seq<(string, V)> | DistinctKeys(a) witness []

  function Keys<V>(a: seq<(string, V)>): seq<string> {
    seq(|a|, i requires 0 <= i < |a| => a[i].0)
  }

  function Values<V>(a: seq<(string, V)>): seq<V> {
    seq(|a|, i requires 0 <= i < |a| => a[i].1)
  }

  /** `$a[$k] ?? null` */
  function Get<V>(a: seq<(string, V)>, k: string): Option<V> {
    if a == [] then None
    else if a[0].0 == k then Some(a[0].1)
    else Get(a[1..], k)
  }

  predicate Has<V>(a: seq<(string, V)>, k: string) {
    Get(a, k).Some?
  }

  lemma {:induction false} HasIffInKeys<V>(a: seq<(string, V)>, k: string)
    ensures Has(a, k) <==> k in Keys(a)
  {
    if a != [] {
      HasIffInKeys(a[1..], k);
      assert Keys(a) == [a[0].0] + Keys(a[1..]);
    }
  }

  /** `$a[$k] = $v`: overwrite the entry for `k` where it stands, or append one. */
  function Put<V>(a: Arr<V>, k: string, v: V): (r: Arr<V>)
    ensures Get(r, k) == Some(v)
    ensures forall k' :: k' != k ==> Get(r, k') == Get(a, k')
    ensures Has(a, k) ==> Keys(r) == Keys(a)
    ensures !Has(a, k) ==> Keys(r) == Keys(a) + [k]
  {
    if a == [] then [(k, v)]
    else if a[0].0 == k then
      ConsKeys((k, v), a[1..]);
      ConsKeys(a[0], a[1..]);
      [(k, v)] + a[1..]
    else
      var rest := Put(a[1..], k, v);
      HeadNotInTail(a);
      ConsKeys(a[0], a[1..]);
      ConsKeys(a[0], rest);
      assert [a[0]] + a[1..] == a;
      [a[0]] + rest
  }

  /** The head of a PHP array is not among the keys of its tail. */
  lemma HeadNotInTail<V>(a: Arr<V>)
    requires a != []
    ensures a[0].0 !in Keys(a[1..])
  {
    forall j | 0 <= j < |a| - 1
      ensures Keys(a[1..])[j] != a[0].0
    {
      assert Keys(a[1..])[j] == a[j + 1].0;
    }
  }

  /** Prepending an entry whose key is new keeps the keys distinct. */
  lemma ConsKeys<V>(x: (string, V), rest: Arr<V>)
    ensures Keys([x] + rest) == [x.0] + Keys(rest)
    ensures x.0 !in Keys(rest) ==> DistinctKeys([x] + rest)
  {
    var r := [x] + rest;
    assert forall j :: 1 <= j < |r| ==> r[j] == rest[j - 1];
    assert forall j :: 0 <= j < |rest| ==> Keys(rest)[j] == rest[j].0;
  }

  /** In a PHP array, looking up the key at position `i` finds the value at position `i`. */
  lemma {:induction false} GetAt<V>(a: Arr<V>, i: int)
    requires 0 <= i < |a|
    ensures Get(a, a[i].0) == Some(a[i].1)
  {
    if i > 0 {
      var rest: Arr<V> := a[1..];
      assert rest[i - 1] == a[i];
      GetAt(rest, i - 1);
    }
  }

  /** A key is present iff it stands at some position. */
  lemma {:induction false} HasIffAt<V>(a: Arr<V>, k: string)
    ensures Has(a, k) <==> exists i :: 0 <= i < |a| && a[i].0 == k
  {
    HasIffInKeys(a, k);
    assert forall i :: 0 <= i < |a| ==> Keys(a)[i] == a[i].0;
  }
}
