/** Facts about repeated keys in a sequence, used by the results screen
    where the key of a card is the slug of its label: the first position
    holding a key, the set of keys, and what stays the same when every key
    gets the same prefix or suffix. */
module Occurrences {

  /** The first position whose key equals the key at `k`. */
  function FirstOccurrence(keys: seq<string>, k: nat): (r: nat)
    requires k < |keys|
    ensures r <= k && keys[r] == keys[k]
    ensures forall j :: 0 <= j < r ==> keys[j] != keys[k]
  {
    FirstOccurrenceFrom(keys, k, 0)
  }

  function FirstOccurrenceFrom(keys: seq<string>, k: nat, from: nat): (r: nat)
    requires from <= k < |keys|
    ensures from <= r <= k && keys[r] == keys[k]
    ensures forall j :: from <= j < r ==> keys[j] != keys[k]
    decreases k - from
  {
    if keys[from] == keys[k] then from else FirstOccurrenceFrom(keys, k, from + 1)
  }

  /** Positions holding the same key share their first occurrence. */
  lemma FirstOccurrenceShared(keys: seq<string>, i: nat, k: nat)
    requires i < |keys| && k < |keys| && keys[i] == keys[k]
    ensures FirstOccurrence(keys, i) == FirstOccurrence(keys, k)
  {
    var fi, fk := FirstOccurrence(keys, i), FirstOccurrence(keys, k);
    assert keys[fi] == keys[k] && keys[fk] == keys[i];
    assert !(fi < fk) && !(fk < fi);
  }

  /** A position is its key's first occurrence exactly when no earlier
      position holds the key. */
  lemma FirstOccurrenceSelf(keys: seq<string>, k: nat)
    requires k < |keys|
    ensures FirstOccurrence(keys, k) == k <==> forall j :: 0 <= j < k ==> keys[j] != keys[k]
  {
  }

  /** Two key sequences that agree on which positions are equal agree on
      first occurrences. */
  lemma FirstOccurrenceTransfer(a: seq<string>, b: seq<string>, k: nat)
    requires |a| == |b| && k < |a|
    requires SameEqualities(a, b)
    ensures FirstOccurrence(a, k) == FirstOccurrence(b, k)
  {
    var fa, fb := FirstOccurrence(a, k), FirstOccurrence(b, k);
    assert a[fa] == a[k] ==> b[fa] == b[k];
    assert b[fb] == b[k] ==> a[fb] == a[k];
  }

  /** Position `i` and `j` hold equal keys in `a` exactly when they do in `b`. */
  predicate SameEqualities(a: seq<string>, b: seq<string>)
    requires |a| == |b|
  {
    forall i, j :: 0 <= i < |a| && 0 <= j < |a| ==> (a[i] == a[j] <==> b[i] == b[j])
  }

  /** No key appears twice. */
  predicate Distinct(keys: seq<string>) {
    forall i, j :: 0 <= i < j < |keys| ==> keys[i] != keys[j]
  }

  lemma DistinctTransfer(a: seq<string>, b: seq<string>)
    requires |a| == |b| && SameEqualities(a, b)
    ensures Distinct(a) <==> Distinct(b)
  {
  }

  /** The set of keys. */
  function Elements(keys: seq<string>): (r: set<string>)
    ensures forall k :: 0 <= k < |keys| ==> keys[k] in r
    ensures forall n :: n in r ==> exists k :: 0 <= k < |keys| && keys[k] == n
  {
    if keys == [] then {}
    else
      var init := keys[..|keys| - 1];
      assert forall k :: 0 <= k < |init| ==> init[k] == keys[k];
      Elements(init) + {keys[|keys| - 1]}
  }

  lemma ElementsEmpty(keys: seq<string>)
    requires |keys| == 0
    ensures Elements(keys) == {}
  {
  }

  lemma ElementsStep(keys: seq<string>, i: nat)
    requires i < |keys|
    ensures Elements(keys[..i + 1]) == Elements(keys[..i]) + {keys[i]}
  {
    assert keys[..i + 1][..i] == keys[..i];
  }

  /** There are never more distinct keys than positions, and as many exactly
      when no key repeats. */
  lemma {:induction false} ElementsSize(keys: seq<string>)
    ensures |Elements(keys)| <= |keys|
    ensures |Elements(keys)| == |keys| <==> Distinct(keys)
  {
    if keys != [] {
      var n := |keys| - 1;
      var init := keys[..n];
      ElementsSize(init);
      var a := Elements(init);
      assert Elements(keys) == a + {keys[n]};
      assert forall i :: 0 <= i < n ==> init[i] == keys[i];
      if keys[n] in a {
        var i :| 0 <= i < n && init[i] == keys[n];
        assert keys[i] == keys[n];
        assert !Distinct(keys);
        assert a + {keys[n]} == a;
      } else {
        assert |Elements(keys)| == |a| + 1;
        assert forall i :: 0 <= i < n ==> keys[i] != keys[n];
        DistinctExtend(keys);
      }
    }
  }

  /** A last key that differs from all the others keeps the keys distinct. */
  lemma DistinctExtend(keys: seq<string>)
    requires keys != []
    requires forall i :: 0 <= i < |keys| - 1 ==> keys[i] != keys[|keys| - 1]
    ensures Distinct(keys) <==> Distinct(keys[..|keys| - 1])
  {
    var init := keys[..|keys| - 1];
    if Distinct(init) {
      forall i, j | 0 <= i < j < |keys|
        ensures keys[i] != keys[j]
      {
        if j < |keys| - 1 {
          assert keys[i] == init[i] && keys[j] == init[j];
        }
      }
    }
  }

  /** Every key with the same prefix. */
  function Prefixed(p: string, keys: seq<string>): (r: seq<string>)
    ensures |r| == |keys| && SameEqualities(r, keys)
  {
    var r := seq(|keys|, i requires 0 <= i < |keys| => p + keys[i]);
    assert forall i :: 0 <= i < |keys| ==> r[i][|p|..] == keys[i];
    r
  }

  /** Every key with the same suffix. */
  function Suffixed(keys: seq<string>, s: string): (r: seq<string>)
    ensures |r| == |keys| && SameEqualities(r, keys)
  {
    var r := seq(|keys|, i requires 0 <= i < |keys| => keys[i] + s);
    assert forall i :: 0 <= i < |keys| ==> r[i][..|keys[i]|] == keys[i];
    r
  }
}
