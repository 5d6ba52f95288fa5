/** A JavaScript object with string keys, as its list of properties in insertion order:
    reading `o[k]`, assigning `o[k] = v` (or spreading `{...o, [k]: v}`, which does the
    same to a copy), and `Object.entries(o)`, whose order decides the string a group's
    completion list is saved as. */
module JsObject {
  import opened Wrappers

  type Object<V> = seq<(string, V)>

  /** `Object.keys(o)`. */
  function Keys<V>(o: Object<V>): seq<string>
  {
    seq(|o|, i requires 0 <= i < |o| => o[i].0)
  }

  /** No key stands twice, as in every object the language builds. */
  predicate DistinctKeys<V>(o: Object<V>)
  {
    forall i, j :: 0 <= i < j < |o| ==> o[i].0 != o[j].0
  }

  /** The position of property `k`, or `|o|` when there is none. */
  function Find<V>(o: Object<V>, k: string): (i: nat)
    ensures i <= |o|
    ensures i < |o| ==> o[i].0 == k
    ensures forall j :: 0 <= j < i ==> o[j].0 != k
  {
    if o == [] then 0
    else if o[0].0 == k then 0
    else 1 + Find(o[1..], k)
  }

  /** `o[k]`, with None for `undefined`. */
  function Get<V>(o: Object<V>, k: string): Option<V>
  {
    var i := Find(o, k);
    if i < |o| then Some(o[i].1) else None
  }

  /** A key reads as defined exactly when it is one of the object's keys. */
  lemma GetKeys<V>(o: Object<V>, k: string)
    ensures Get(o, k).Some? <==> k in Keys(o)
  {
    var i := Find(o, k);
    if i < |o| {
      assert Keys(o)[i] == k;
    } else {
      assert forall j :: 0 <= j < |o| ==> Keys(o)[j] != k;
    }
  }

  /** Two objects whose keys stand at the same positions find every key at the same position. */
  lemma FindSameKeys<V>(o: Object<V>, p: Object<V>, k: string)
    requires Keys(o) == Keys(p)
    ensures Find(o, k) == Find(p, k)
  {
    assert |o| == |Keys(o)| == |p|;
    var a, b := Find(o, k), Find(p, k);
    assert a < |o| ==> p[a].0 == Keys(p)[a] == Keys(o)[a] == k;
    assert b < |p| ==> o[b].0 == Keys(o)[b] == Keys(p)[b] == k;
  }

  /** `o[k] = v`: an existing property keeps its place and takes the new value; a new one is
      appended. */
  function Set<V>(o: Object<V>, k: string, v: V): (r: Object<V>)
    ensures Get(r, k) == Some(v)
  {
    var i := Find(o, k);
    if i < |o| then
      var r := o[i := (k, v)];
      assert Keys(r) == Keys(o);
      FindSameKeys(o, r, k);
      r
    else
      var r := o + [(k, v)];
      assert Find(r, k) == |o| by {
        assert r[|o|].0 == k;
      }
      r
  }

  /** The keys after `o[k] = v`: the same list, or `k` appended; no key is then doubled. */
  lemma SetKeys<V>(o: Object<V>, k: string, v: V)
    ensures Keys(Set(o, k, v)) == if k in Keys(o) then Keys(o) else Keys(o) + [k]
    ensures DistinctKeys(o) ==> DistinctKeys(Set(o, k, v))
  {
    GetKeys(o, k);
    var i := Find(o, k);
    if i < |o| {
      assert Keys(Set(o, k, v)) == Keys(o);
    } else {
      assert Keys(Set(o, k, v)) == Keys(o) + [k];
    }
  }

  /** After `o[k] = v`, key `k'` reads `v` when it is `k` and as before otherwise. */
  lemma GetSet<V>(o: Object<V>, k: string, v: V, k': string)
    ensures Get(Set(o, k, v), k') == if k' == k then Some(v) else Get(o, k')
  {
    var r := Set(o, k, v);
    var i := Find(o, k);
    if i < |o| {
      FindSameKeys(o, r, k');
    } else if k' != k {
      assert r == o + [(k, v)];
      var a := Find(o, k');
      assert Find(r, k') == (if a < |o| then a else |r|) by {
        var b := Find(r, k');
        assert a < |o| ==> r[a].0 == k';
        if b < |o| { assert r[b] == o[b]; }
      }
    }
  }

  /** Assigning a key the value it already holds leaves the object as it was. */
  lemma SetSame<V>(o: Object<V>, k: string, v: V)
    requires Get(o, k) == Some(v)
    ensures Set(o, k, v) == o
  {
    var i := Find(o, k);
    assert o[i := (k, v)] == o;
  }

  /** A second assignment to the same key overwrites the first in place. */
  lemma SetTwice<V>(o: Object<V>, k: string, v: V, w: V)
    ensures Set(Set(o, k, v), k, w) == Set(o, k, w)
  {
    var i := Find(o, k);
    if i < |o| {
      FindSameKeys(o, Set(o, k, v), k);
    } else {
      var p := Set(o, k, v);
      assert p == o + [(k, v)];
      assert Find(p, k) == |o| by {
        assert forall j :: 0 <= j < |o| ==> p[j] == o[j];
      }
      assert p[|o| := (k, p[|o|].1)][|o| := (k, w)] == o + [(k, w)];
    }
  }

  /** The keys whose value is `true`, in the order `Object.entries` lists them: the
      `filter(([_, completed]) => completed).map(([id]) => id)` of the save. */
  function TrueKeys(o: Object<bool>): (r: seq<string>)
    ensures |r| <= |o|
  {
    if o == [] then []
    else TrueKeys(o[..|o| - 1]) + (if o[|o| - 1].1 then [o[|o| - 1].0] else [])
  }

  /** A key is listed by `TrueKeys` exactly when it reads as `true`. */
  lemma {:induction false} TrueKeysMeaning(o: Object<bool>, k: string)
    requires DistinctKeys(o)
    ensures k in TrueKeys(o) <==> Get(o, k) == Some(true)
  {
    if o != [] {
      var init, last := o[..|o| - 1], o[|o| - 1];
      TrueKeysMeaning(init, k);
      assert o == init + [last];
      var a := Find(init, k);
      if last.0 == k {
        GetKeys(init, k);
        assert k !in Keys(init) by {
          forall j | 0 <= j < |init| ensures Keys(init)[j] != k {
            assert o[j].0 != o[|o| - 1].0;
          }
        }
        assert Find(o, k) == |init| by {
          assert forall j :: 0 <= j < |init| ==> o[j] == init[j];
        }
        assert k !in TrueKeys(init);
      } else {
        assert Find(o, k) == (if a < |init| then a else |o|) by {
          var b := Find(o, k);
          if b < |init| { assert o[b] == init[b]; }
          if a < |init| { assert o[a] == init[a]; }
        }
      }
    }
  }

  /** Every key listed by `TrueKeys` is a key of the object, listed once. */
  lemma {:induction false} TrueKeysDistinct(o: Object<bool>)
    requires DistinctKeys(o)
    ensures forall i, j :: 0 <= i < j < |TrueKeys(o)| ==> TrueKeys(o)[i] != TrueKeys(o)[j]
    ensures forall i :: 0 <= i < |TrueKeys(o)| ==> TrueKeys(o)[i] in Keys(o)
  {
    if o != [] {
      var init, last := o[..|o| - 1], o[|o| - 1];
      assert DistinctKeys(init);
      TrueKeysDistinct(init);
      assert Keys(o) == Keys(init) + [last.0];
      assert last.0 !in Keys(init) by {
        forall j | 0 <= j < |init| ensures Keys(init)[j] != last.0 {
          assert o[j].0 != o[|o| - 1].0;
        }
      }
    }
  }
}
