/**
 * The order in which `Object.values` lists an object's own properties
 * (OrdinaryOwnPropertyKeys, section 10.1.11.1 of ECMA-262): keys that are
 * array indices come first in ascending numeric order, then the remaining
 * string keys in the order they were created.
 */
module PropertyOrder {
  import NumberText

  /** An array index: the canonical decimal text of an integer below 2^32 - 1. */
  predicate IsArrayIndex(k: string) {
    |k| > 0 && NumberText.AllDigits(k) && (k[0] != '0' || |k| == 1) &&
    NumberText.DigitsValue(k) < 0xFFFF_FFFF
  }

  /** The array-index keys among `keys`, each with its numeric value. */
  function IndexTable(keys: seq<string>): (t: map<string, nat>)
    ensures forall k :: k in t <==> k in keys && IsArrayIndex(k)
    ensures forall k :: k in t ==> IsArrayIndex(k) && t[k] == NumberText.DigitsValue(k)
  {
    map k | k in keys && IsArrayIndex(k) :: NumberText.DigitsValue(k)
  }

  /** Keys listed in `t` appear in ascending order of their value. */
  predicate Ascending(s: seq<string>, t: map<string, nat>) {
    forall i, j :: 0 <= i < j < |s| && s[i] in t && s[j] in t ==> t[s[i]] <= t[s[j]]
  }

  /** The keys of `keys` listed in `t`, in their order. */
  function Listed(keys: seq<string>, t: map<string, nat>): seq<string> {
    if |keys| == 0 then []
    else (if keys[0] in t then [keys[0]] else []) + Listed(keys[1..], t)
  }

  /** The keys of `keys` not listed in `t`, in their order. */
  function Unlisted(keys: seq<string>, t: map<string, nat>): seq<string> {
    if |keys| == 0 then []
    else (if keys[0] in t then [] else [keys[0]]) + Unlisted(keys[1..], t)
  }

  /** `Listed` keeps exactly the keys listed in `t`. */
  lemma {:induction false} ListedMembers(keys: seq<string>, t: map<string, nat>)
    ensures forall k :: k in Listed(keys, t) <==> k in keys && k in t
    decreases |keys|
  {
    if |keys| > 0 {
      ListedMembers(keys[1..], t);
      assert keys == [keys[0]] + keys[1..];
    }
  }

  /** `Unlisted` keeps exactly the keys not listed in `t`. */
  lemma {:induction false} UnlistedMembers(keys: seq<string>, t: map<string, nat>)
    ensures forall k :: k in Unlisted(keys, t) <==> k in keys && k !in t
    decreases |keys|
  {
    if |keys| > 0 {
      UnlistedMembers(keys[1..], t);
      assert keys == [keys[0]] + keys[1..];
    }
  }

  /** Inserts the listed key `k` into the ascending `s`, before the first key that is not smaller. */
  function Insert(k: string, s: seq<string>, t: map<string, nat>): (r: seq<string>)
    requires k in t && forall x :: x in s ==> x in t
    requires Ascending(s, t)
    ensures Ascending(r, t)
    ensures multiset(r) == multiset(s) + multiset{k}
    ensures forall x :: x in r ==> x in t
  {
    if |s| == 0 then [k]
    else if t[k] <= t[s[0]] then
      ConsAscending(k, s, t);
      [k] + s
    else
      var rest := Insert(k, s[1..], t);
      assert s == [s[0]] + s[1..];
      FirstIsLeast(k, s, rest, t);
      ConsAscending(s[0], rest, t);
      [s[0]] + rest
  }

  /** Putting a key no larger than the first in front keeps a sequence ascending. */
  lemma ConsAscending(x: string, rest: seq<string>, t: map<string, nat>)
    requires x in t && forall y :: y in rest ==> y in t
    requires Ascending(rest, t)
    requires |rest| > 0 ==> t[x] <= t[rest[0]]
    ensures Ascending([x] + rest, t)
  {
    var r := [x] + rest;
    forall i, j | 0 <= i < j < |r| && r[i] in t && r[j] in t
      ensures t[r[i]] <= t[r[j]]
    {
      assert r[j] == rest[j - 1];
      if i > 0 {
        assert r[i] == rest[i - 1];
      } else if j > 1 {
        assert t[rest[0]] <= t[rest[j - 1]];
      }
    }
  }

  lemma FirstIsLeast(k: string, s: seq<string>, rest: seq<string>, t: map<string, nat>)
    requires |s| > 0 && k in t && forall x :: x in s ==> x in t
    requires Ascending(s, t) && t[s[0]] < t[k]
    requires multiset(rest) == multiset(s[1..]) + multiset{k}
    ensures forall x :: x in rest ==> x in t && t[s[0]] <= t[x]
  {
    forall x | x in rest
      ensures x in t && t[s[0]] <= t[x]
    {
      assert x in multiset(rest);
      if x != k {
        assert x in multiset(s[1..]);
        var j :| 0 <= j < |s[1..]| && s[1..][j] == x;
        assert s[j + 1] == x;
      }
    }
  }

  function Sort(s: seq<string>, t: map<string, nat>): (r: seq<string>)
    requires forall x :: x in s ==> x in t
    ensures Ascending(r, t)
    ensures multiset(r) == multiset(s)
    ensures forall x :: x in r ==> x in t
  {
    if |s| == 0 then []
    else
      assert s == [s[0]] + s[1..];
      Insert(s[0], Sort(s[1..], t), t)
  }

  /** The own-property order of an object whose keys were created in the order `keys`. */
  function OwnKeys(keys: seq<string>): (r: seq<string>)
    ensures multiset(r) == multiset(keys)
  {
    var t := IndexTable(keys);
    SplitCount(keys, t);
    ListedMembers(keys, t);
    Sort(Listed(keys, t), t) + Unlisted(keys, t)
  }

  lemma {:induction false} SplitCount(keys: seq<string>, t: map<string, nat>)
    ensures multiset(Listed(keys, t)) + multiset(Unlisted(keys, t)) == multiset(keys)
    decreases |keys|
  {
    if |keys| > 0 {
      var h, rest := keys[0], keys[1..];
      var l, u := Listed(rest, t), Unlisted(rest, t);
      SplitCount(rest, t);
      assert keys == [h] + rest;
      var m := multiset(l) + multiset(u);
      assert multiset(keys) == multiset{h} + m;
      if h in t {
        assert Listed(keys, t) == [h] + l;
        assert Unlisted(keys, t) == u;
        assert multiset(Listed(keys, t)) == multiset{h} + multiset(l);
      } else {
        assert Listed(keys, t) == l;
        assert Unlisted(keys, t) == [h] + u;
        assert multiset(Unlisted(keys, t)) == multiset{h} + multiset(u);
      }
    }
  }

  /** `OwnKeys` lists the same keys, each as often as before. */
  lemma OwnKeysMembers(keys: seq<string>)
    ensures |OwnKeys(keys)| == |keys|
    ensures forall k :: k in OwnKeys(keys) <==> k in keys
  {
    var r := OwnKeys(keys);
    assert |multiset(r)| == |multiset(keys)|;
    forall k ensures k in r <==> k in keys {
      assert k in r <==> k in multiset(r);
      assert k in keys <==> k in multiset(keys);
    }
  }

  /** Every key listed in `t` is preceded only by listed keys of no greater value. */
  predicate IndicesFirst(r: seq<string>, t: map<string, nat>) {
    forall i, j :: 0 <= i < j < |r| && r[j] in t ==> r[i] in t && t[r[i]] <= t[r[j]]
  }

  /**
   * Array-index keys come first, in ascending numeric order (`IndexTable`
   * lists exactly the array-index keys, with their values).
   */
  lemma OwnKeysIndicesFirst(keys: seq<string>)
    ensures IndicesFirst(OwnKeys(keys), IndexTable(keys))
  {
    var t := IndexTable(keys);
    ListedMembers(keys, t);
    var a := Sort(Listed(keys, t), t);
    var u := Unlisted(keys, t);
    var r := OwnKeys(keys);
    assert r == a + u;
    forall m | |a| <= m < |r|
      ensures r[m] !in t
    {
      assert r[m] == u[m - |a|];
      UnlistedMembers(keys, t);
    }
    forall i, j | 0 <= i < j < |r| && r[j] in t
      ensures r[i] in t && t[r[i]] <= t[r[j]]
    {
      assert r[i] == a[i] && r[j] == a[j];
    }
    assert IndicesFirst(r, t);
  }

  /** Keys that are not array indices keep their creation order. */
  lemma OwnKeysOthersInOrder(keys: seq<string>)
    ensures Unlisted(OwnKeys(keys), IndexTable(keys)) == Unlisted(keys, IndexTable(keys))
  {
    var t := IndexTable(keys);
    ListedMembers(keys, t);
    var a := Sort(Listed(keys, t), t);
    UnlistedOfListed(a, t);
    UnlistedAppend(a, Unlisted(keys, t), t);
    UnlistedIdempotent(keys, t);
  }

  /** With no array-index key, the creation order is kept. */
  lemma {:induction false} OwnKeysNoIndices(keys: seq<string>)
    requires forall i :: 0 <= i < |keys| ==> !IsArrayIndex(keys[i])
    ensures OwnKeys(keys) == keys
  {
    var t := IndexTable(keys);
    forall k ensures k !in t {
      if k in keys {
        var i :| 0 <= i < |keys| && keys[i] == k;
      }
    }
    assert t.Keys == {};
    assert t == map[];
    ListedNone(keys, t);
    UnlistedAll(keys, t);
  }

  lemma {:induction false} ListedNone(keys: seq<string>, t: map<string, nat>)
    requires t == map[]
    ensures Listed(keys, t) == []
    decreases |keys|
  {
    if |keys| > 0 {
      ListedNone(keys[1..], t);
    }
  }

  lemma {:induction false} UnlistedAll(keys: seq<string>, t: map<string, nat>)
    requires t == map[]
    ensures Unlisted(keys, t) == keys
    decreases |keys|
  {
    if |keys| > 0 {
      UnlistedAll(keys[1..], t);
      assert keys == [keys[0]] + keys[1..];
    }
  }

  lemma {:induction false} UnlistedOfListed(a: seq<string>, t: map<string, nat>)
    requires forall k :: k in a ==> k in t
    ensures Unlisted(a, t) == []
    decreases |a|
  {
    if |a| > 0 {
      UnlistedOfListed(a[1..], t);
    }
  }

  lemma {:induction false} UnlistedAppend(a: seq<string>, b: seq<string>, t: map<string, nat>)
    ensures Unlisted(a + b, t) == Unlisted(a, t) + Unlisted(b, t)
    decreases |a|
  {
    if |a| == 0 {
      assert a + b == b;
    } else {
      assert (a + b)[0] == a[0];
      assert (a + b)[1..] == a[1..] + b;
      UnlistedAppend(a[1..], b, t);
    }
  }

  lemma {:induction false} UnlistedIdempotent(keys: seq<string>, t: map<string, nat>)
    ensures Unlisted(Unlisted(keys, t), t) == Unlisted(keys, t)
    decreases |keys|
  {
    if |keys| > 0 {
      UnlistedIdempotent(keys[1..], t);
      if keys[0] !in t {
        var o := Unlisted(keys, t);
        assert o == [keys[0]] + Unlisted(keys[1..], t);
        assert o[0] == keys[0] && o[1..] == Unlisted(keys[1..], t);
      } else {
        assert Unlisted(keys, t) == [] + Unlisted(keys[1..], t) == Unlisted(keys[1..], t);
      }
    }
  }
}
