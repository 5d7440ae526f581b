/** A JavaScript plain object used as a dictionary, as the codecs use it:
    a sequence of key/value pairs in first-insertion order. Assigning to a
    key that is already present changes its value in place, so the key keeps
    its original position; a new key goes to the end. */
module Records {

  predicate HasKey<K(==), V>(r: seq<(K, V)>, k: K) {
    exists i :: 0 <= i < |r| && r[i].0 == k
  }

  predicate DistinctKeys<K(==), V>(r: seq<(K, V)>) {
    forall i, j :: 0 <= i < j < |r| ==> r[i].0 != r[j].0
  }

  /** `r[k]`, or `absent` when `k` is not a key. */
  function Get<K(==), V>(r: seq<(K, V)>, k: K, absent: V): V
  {
    if |r| == 0 then absent else if r[0].0 == k then r[0].1 else Get(r[1..], k, absent)
  }

  /** `r[k] = v`. */
  function Put<K(==), V>(r: seq<(K, V)>, k: K, v: V): (r': seq<(K, V)>)
    ensures HasKey(r, k) ==> |r'| == |r|
    ensures !HasKey(r, k) ==> r' == r + [(k, v)]
    ensures forall i :: 0 <= i < |r| ==> r'[i].0 == r[i].0
    ensures forall i :: 0 <= i < |r| && r[i].0 != k ==> r'[i] == r[i]
  {
    if |r| == 0 then [(k, v)]
    else if r[0].0 == k then [(k, v)] + r[1..]
    else
      assert HasKey(r, k) ==> HasKey(r[1..], k);
      assert forall i :: 1 <= i < |r| ==> r[i] == r[1..][i - 1];
      [r[0]] + Put(r[1..], k, v)
  }

  /** Assigns each pair of `es` in turn, starting from `r`. */
  function PutAll<K(==), V>(r: seq<(K, V)>, es: seq<(K, V)>): seq<(K, V)>
    decreases |es|
  {
    if |es| == 0 then r else PutAll(Put(r, es[0].0, es[0].1), es[1..])
  }

  /** In a record with distinct keys, reading a key gives its own value. */
  lemma {:induction false} GetAt<K, V>(r: seq<(K, V)>, i: nat, absent: V)
    requires DistinctKeys(r) && i < |r|
    ensures Get(r, r[i].0, absent) == r[i].1
  {
    if i > 0 {
      GetAt(r[1..], i - 1, absent);
    }
  }

  /** A key that is not present reads as `absent`. */
  lemma {:induction false} GetMissing<K, V>(r: seq<(K, V)>, k: K, absent: V)
    requires !HasKey(r, k)
    ensures Get(r, k, absent) == absent
  {
    if r != [] {
      assert forall i :: 0 <= i < |r[1..]| ==> r[1..][i] == r[i + 1];
      GetMissing(r[1..], k, absent);
    }
  }

  /** Assignment keeps the keys distinct, and reading back gives the value
      assigned to that key and leaves every other key's value unchanged. */
  lemma {:induction false} PutGet<K, V>(r: seq<(K, V)>, k: K, v: V, k': K, absent: V)
    requires DistinctKeys(r)
    ensures DistinctKeys(Put(r, k, v))
    ensures Get(Put(r, k, v), k', absent) == if k' == k then v else Get(r, k', absent)
  {
    if r != [] && r[0].0 != k {
      PutGet(r[1..], k, v, k', absent);
      var tail := Put(r[1..], k, v);
      assert forall i :: 0 <= i < |tail| ==> tail[i].0 == k || HasKey(r[1..], tail[i].0) by {
        forall i | 0 <= i < |tail|
          ensures tail[i].0 == k || HasKey(r[1..], tail[i].0)
        {
          if i < |r[1..]| {
            assert tail[i].0 == r[1..][i].0;
          }
        }
      }
    }
  }

  /** Assigning pairs whose keys are distinct to an empty record yields
      exactly those pairs, in order. */
  lemma {:induction false} PutAllDistinct<K, V>(r: seq<(K, V)>, es: seq<(K, V)>)
    requires DistinctKeys(r + es)
    ensures PutAll(r, es) == r + es
    decreases |es|
  {
    if es != [] {
      assert forall i :: 0 <= i < |r| ==> (r + es)[i] == r[i];
      assert (r + es)[|r|] == es[0];
      assert r + [es[0]] + es[1..] == r + es;
      PutAllDistinct(r + [es[0]], es[1..]);
    }
  }
}
