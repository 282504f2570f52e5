/**
 * Ascending iteration over integer keys, the order in which a TreeMap keyed by start
 * time hands out its values, and the order in which this model walks store keys.
 * Walks whose order nothing depends on pick members with `Pick` instead.
 */
module OrderedKeys {

  /** A non-empty set has a member one can pick. */
  lemma {:induction false} NonEmptyHasMember<T>(s: set<T>)
    requires s != {}
    ensures exists x :: x in s
  {
    if forall x :: x !in s {
      assert false;
    }
  }

  /** A value of a map is stored under some key. */
  lemma {:induction false} ValueHasKey<V>(m: map<int, V>, v: V)
    requires v in m.Values
    ensures exists k :: k in m && m[k] == v
  {
    if forall k :: k in m ==> m[k] != v {
      assert false;
    }
  }

  /** Some member of a non-empty set, for proofs. */
  ghost function Choose<T>(s: set<T>): (x: T)
    requires s != {}
    ensures x in s
  {
    NonEmptyHasMember(s);
    var x :| x in s;
    x
  }

  /** Some member of a non-empty set, for iterating over a set in unspecified order. */
  method Pick<T>(s: set<T>) returns (x: T)
    requires s != {}
    ensures x in s
  {
    NonEmptyHasMember(s);
    x :| x in s;
  }

  /** A non-empty finite set of integers has a least element. */
  lemma {:induction false} HasMinimum(s: set<int>)
    requires s != {}
    ensures exists m :: m in s && forall x :: x in s ==> m <= x
  {
    var y := Choose(s);
    var rest := s - {y};
    if rest == {} {
      assert s == {y};
      assert forall x :: x in s ==> y <= x;
    } else {
      HasMinimum(rest);
      var m :| m in rest && forall x :: x in rest ==> m <= x;
      assert s == rest + {y};
      var least := if y < m then y else m;
      assert least in s && forall x :: x in s ==> least <= x;
    }
  }

  /** The least element of a non-empty set. */
  function MinOf(s: set<int>): (m: int)
    requires s != {}
    ensures m in s && forall x :: x in s ==> m <= x
  {
    HasMinimum(s);
    var m :| m in s && forall x :: x in s ==> m <= x;
    m
  }

  /**
   * The elements of `s`, each exactly once, least first; SortedKeysAscending proves
   * that the order is strictly ascending.
   */
  function SortedKeys(s: set<int>): (r: seq<int>)
    ensures |r| == |s|
    ensures forall x :: x in r <==> x in s
    decreases |s|
  {
    if s == {} then []
    else
      var m := MinOf(s);
      [m] + SortedKeys(s - {m})
  }

  /** SortedKeys lists its elements in strictly ascending order. */
  lemma {:induction false} SortedKeysAscending(s: set<int>)
    ensures forall i, j :: 0 <= i < j < |SortedKeys(s)| ==> SortedKeys(s)[i] < SortedKeys(s)[j]
    decreases |s|
  {
    if s != {} {
      var m := MinOf(s);
      var rest := SortedKeys(s - {m});
      SortedKeysAscending(s - {m});
      var r := SortedKeys(s);
      assert r == [m] + rest;
      forall i, j | 0 <= i < j < |r| ensures r[i] < r[j] {
        assert r[j] == rest[j - 1] && rest[j - 1] in s - {m};
        if i > 0 {
          assert r[i] == rest[i - 1];
        }
      }
    }
  }

  /** The values of `m`, one per key, in ascending key order. */
  function ValuesInKeyOrder<V>(m: map<int, V>): (r: seq<V>)
    ensures |r| == |m|
    ensures forall i :: 0 <= i < |r| ==> r[i] == m[SortedKeys(m.Keys)[i]]
  {
    var ks := SortedKeys(m.Keys);
    assert forall i :: 0 <= i < |ks| ==> ks[i] in m.Keys;
    seq(|ks|, i requires 0 <= i < |ks| => m[ks[i]])
  }

  /** Every value of `m` appears in ValuesInKeyOrder(m), and nothing else does. */
  lemma ValuesInKeyOrderCover<V>(m: map<int, V>)
    ensures forall v :: v in ValuesInKeyOrder(m) <==> v in m.Values
  {
    var r := ValuesInKeyOrder(m);
    var ks := SortedKeys(m.Keys);
    forall v | v in m.Values ensures v in r {
      var k :| k in m && m[k] == v;
      var i :| 0 <= i < |ks| && ks[i] == k;
      assert r[i] == v;
    }
  }
}
