/** A JavaScript object (or the Python dict it becomes after JSON transfer)
    with string keys: a list of key/value pairs in insertion order with no
    key twice. Assigning to an existing key keeps its position. */
module JsObject {

  type Obj<V> = seq<(string, V)>

  function Keys<V>(o: Obj<V>): (ks: seq<string>)
    ensures |ks| == |o| && forall i :: 0 <= i < |o| ==> ks[i] == o[i].0
  {
    if o == [] then [] else [o[0].0] + Keys(o[1..])
  }

  predicate WellFormed<V>(o: Obj<V>) {
    forall i, j :: 0 <= i < j < |o| ==> o[i].0 != o[j].0
  }

  predicate Has<V>(o: Obj<V>, k: string) {
    exists i :: 0 <= i < |o| && o[i].0 == k
  }

  /** Membership of a key splits into the first pair and the rest. */
  lemma HasCons<V>(o: Obj<V>)
    requires o != []
    ensures forall k :: Has(o, k) <==> k == o[0].0 || Has(o[1..], k)
  {
    forall k ensures Has(o, k) <==> k == o[0].0 || Has(o[1..], k) {
      if Has(o, k) && k != o[0].0 {
        var i :| 0 <= i < |o| && o[i].0 == k;
        assert o[1..][i - 1].0 == k;
      }
      if Has(o[1..], k) {
        var i :| 0 <= i < |o[1..]| && o[1..][i].0 == k;
        assert o[i + 1].0 == k;
      }
    }
  }

  /** `o[k]` for a key that is present. */
  function Get<V>(o: Obj<V>, k: string): (v: V)
    requires Has(o, k)
    ensures exists i :: 0 <= i < |o| && o[i] == (k, v)
    ensures WellFormed(o) ==> forall i :: 0 <= i < |o| && o[i].0 == k ==> o[i].1 == v
  {
    if o[0].0 == k then o[0].1 else
      assert exists i :: 1 <= i < |o| && o[i].0 == k;
      var i :| 1 <= i < |o| && o[i].0 == k;
      assert o[1..][i - 1].0 == k;
      var v := Get(o[1..], k);
      assert forall j :: 0 <= j < |o[1..]| ==> o[1..][j] == o[j + 1];
      v
  }

  /** `o[k] = v`: overwrites in place when k is present, appends otherwise. */
  function Put<V>(o: Obj<V>, k: string, v: V): Obj<V> {
    if Has(o, k) then seq(|o|, i requires 0 <= i < |o| => if o[i].0 == k then (k, v) else o[i])
    else o + [(k, v)]
  }

  /** After `o[k] = v` the object is still an object, k maps to v, the keys
      are the old keys plus k, and every other pair keeps its value and its
      position. */
  lemma {:induction false} PutSpec<V>(o: Obj<V>, k: string, v: V)
    requires WellFormed(o)
    ensures WellFormed(Put(o, k, v))
    ensures Has(Put(o, k, v), k) && Get(Put(o, k, v), k) == v
    ensures forall k' :: Has(Put(o, k, v), k') <==> k' == k || Has(o, k')
    ensures forall i :: 0 <= i < |o| && o[i].0 != k ==> Put(o, k, v)[i] == o[i]
    ensures |Put(o, k, v)| == |o| + (if Has(o, k) then 0 else 1)
  {
    var r := Put(o, k, v);
    if Has(o, k) {
      var j :| 0 <= j < |o| && o[j].0 == k;
      assert r[j] == (k, v);
      forall k' | Has(r, k') ensures k' == k || Has(o, k') {
        var i :| 0 <= i < |r| && r[i].0 == k';
      }
      forall k' | Has(o, k') ensures Has(r, k') {
        var i :| 0 <= i < |o| && o[i].0 == k';
        assert r[i].0 == k';
      }
    } else {
      assert r[|o|] == (k, v);
      forall k' | Has(o, k') ensures Has(r, k') {
        var i :| 0 <= i < |o| && o[i].0 == k';
        assert r[i].0 == k';
      }
    }
  }

  /** The object as a dictionary, forgetting the order. */
  function ToMap<V>(o: Obj<V>): (m: map<string, V>)
    requires WellFormed(o)
    ensures forall k :: k in m <==> Has(o, k)
    ensures forall k :: k in m ==> m[k] == Get(o, k)
  {
    if o == [] then map[] else
      var m := ToMap(o[1..]);
      HasCons(o);
      assert forall k :: Has(o[1..], k) ==> Get(o[1..], k) == Get(o, k) by {
        forall k | Has(o[1..], k) ensures Get(o[1..], k) == Get(o, k) {
          var i :| 0 <= i < |o[1..]| && o[1..][i] == (k, Get(o[1..], k));
          assert o[i + 1] == (k, Get(o[1..], k));
        }
      }
      m[o[0].0 := o[0].1]
  }

  /** Assignment seen through the dictionary view: `o[k] = v` is a map update. */
  lemma PutIsMapUpdate<V>(o: Obj<V>, k: string, v: V)
    requires WellFormed(o)
    ensures WellFormed(Put(o, k, v)) && ToMap(Put(o, k, v)) == ToMap(o)[k := v]
  {
    PutSpec(o, k, v);
    var r := Put(o, k, v);
    forall k' | Has(r, k') && k' != k
      ensures Has(o, k') && Get(r, k') == Get(o, k')
    {
      var i :| 0 <= i < |o| && o[i].0 == k';
      assert r[i] == o[i];
    }
  }

  /** A second assignment to the same key replaces the first and leaves the
      key where the first put it. */
  lemma PutPut<V>(o: Obj<V>, k: string, a: V, b: V)
    ensures Put(Put(o, k, a), k, b) == Put(o, k, b)
  {
    var p := Put(o, k, a);
    if !Has(o, k) {
      assert p[|o|].0 == k;
      assert Has(p, k);
      var r := Put(p, k, b);
      assert |r| == |o| + 1;
      forall i | 0 <= i < |o| ensures r[i] == o[i] {
        assert p[i] == o[i];
      }
      assert r == o + [(k, b)];
    } else {
      var j :| 0 <= j < |o| && o[j].0 == k;
      assert p[j].0 == k;
    }
  }

  /** Assigning one key leaves every other key's value alone. */
  lemma PutKeepsOthers<V>(o: Obj<V>, k: string, v: V, k': string)
    requires WellFormed(o) && Has(o, k') && k' != k
    ensures Has(Put(o, k, v), k') && Get(Put(o, k, v), k') == Get(o, k')
  {
    PutSpec(o, k, v);
    var g := Get(o, k');
    var m :| 0 <= m < |o| && o[m] == (k', g);
    assert Put(o, k, v)[m] == o[m];
  }
}
