/**
  The abstract ordered map both tree variants implement: a list of
  (key, value) entries. An in-order traversal of either tree is such a list;
  for a tree that keeps the search-tree order it is strictly ascending, its
  `Lookup` is the tree's `search` and its `Put` is the tree's `insert`.
*/
module Entries {
  import opened Wrappers
  import opened KeyOrder

  type Entry<V> = (Key, V)

  /** Keys strictly ascend along the list (so no key repeats). */
  ghost predicate Ascending<V>(s: seq<Entry<V>>)
  {
    forall i, j :: 0 <= i < j < |s| ==> Less(s[i].0, s[j].0)
  }

  function KeysOf<V>(s: seq<Entry<V>>): set<Key>
  {
    set i | 0 <= i < |s| :: s[i].0
  }

  /** The value of the first entry whose key is `j`. */
  function Lookup<V>(s: seq<Entry<V>>, j: Key): Option<V>
  {
    if s == [] then None
    else if s[0].0 == j then Some(s[0].1)
    else Lookup(s[1..], j)
  }

  /** Sorted insertion: walk past the smaller keys, then either insert a new
      entry before the first greater key or overwrite the equal one. */
  function Put<V>(s: seq<Entry<V>>, k: Key, v: V): seq<Entry<V>>
  {
    if s == [] then [(k, v)]
    else if Less(k, s[0].0) then [(k, v)] + s
    else if Less(s[0].0, k) then [s[0]] + Put(s[1..], k, v)
    else [(k, v)] + s[1..]
  }

  /** `Put` adds exactly its key to the key set. */
  lemma {:induction false} PutKeys<V>(s: seq<Entry<V>>, k: Key, v: V)
    ensures KeysOf(Put(s, k, v)) == KeysOf(s) + {k}
  {
    if s == [] {
      KeysOfCons((k, v), s);
      assert [(k, v)] + s == [(k, v)];
    } else if Less(k, s[0].0) {
      KeysOfCons((k, v), s);
    } else if Less(s[0].0, k) {
      PutKeys(s[1..], k, v);
      KeysOfCons(s[0], s[1..]);
      KeysOfCons(s[0], Put(s[1..], k, v));
      assert s == [s[0]] + s[1..];
    } else {
      LessTrichotomous(k, s[0].0);
      assert s == [s[0]] + s[1..];
      KeysOfCons(s[0], s[1..]);
      KeysOfCons((k, v), s[1..]);
    }
  }

  /** `Put` keeps an ascending list ascending. */
  lemma {:induction false} PutAscending<V>(s: seq<Entry<V>>, k: Key, v: V)
    requires Ascending(s)
    ensures Ascending(Put(s, k, v))
  {
    var r := Put(s, k, v);
    if s == [] {
    } else if Less(k, s[0].0) {
      forall i, j | 0 <= i < j < |r| ensures Less(r[i].0, r[j].0) {
        if i == 0 && j > 1 {
          LessTransitive(k, s[0].0, s[j - 1].0);
        }
      }
    } else if Less(s[0].0, k) {
      var t := s[1..];
      var p := Put(t, k, v);
      assert Ascending(t) by {
        forall i, j | 0 <= i < j < |t| ensures Less(t[i].0, t[j].0) {
          assert t[i] == s[i + 1] && t[j] == s[j + 1];
        }
      }
      PutAscending(t, k, v);
      PutKeys(t, k, v);
      forall i, j | 0 <= i < j < |r| ensures Less(r[i].0, r[j].0) {
        if i == 0 {
          assert r[j] == p[j - 1];
          assert r[j].0 in KeysOf(p);
          if r[j].0 != k {
            var m :| 0 <= m < |t| && t[m].0 == r[j].0;
            assert t[m] == s[m + 1];
          }
        } else {
          assert r[i] == p[i - 1] && r[j] == p[j - 1];
        }
      }
    } else {
      LessTrichotomous(k, s[0].0);
      forall i, j | 0 <= i < j < |r| ensures Less(r[i].0, r[j].0) {
        assert r[j] == s[j];
        if i > 0 {
          assert r[i] == s[i];
        }
      }
    }
  }

  lemma KeysOfCons<V>(e: Entry<V>, s: seq<Entry<V>>)
    ensures KeysOf([e] + s) == {e.0} + KeysOf(s)
  {
    var r := [e] + s;
    forall x | x in KeysOf(s) ensures x in KeysOf(r) {
      var i :| 0 <= i < |s| && s[i].0 == x;
      assert r[i + 1] == s[i];
    }
    assert r[0] == e;
    forall x | x in KeysOf(r) ensures x in {e.0} + KeysOf(s) {
      var i :| 0 <= i < |r| && r[i].0 == x;
      if i > 0 {
        assert r[i] == s[i - 1];
      }
    }
  }

  lemma KeysOfSplit<V>(a: seq<Entry<V>>, x: Entry<V>, b: seq<Entry<V>>)
    ensures KeysOf(a + [x] + b) == KeysOf(a) + {x.0} + KeysOf(b)
  {
    var s := a + [x] + b;
    forall y | y in KeysOf(a) ensures y in KeysOf(s) {
      var i :| 0 <= i < |a| && a[i].0 == y;
      assert s[i] == a[i];
    }
    assert s[|a|] == x;
    forall y | y in KeysOf(b) ensures y in KeysOf(s) {
      var i :| 0 <= i < |b| && b[i].0 == y;
      assert s[|a| + 1 + i] == b[i];
    }
    forall y | y in KeysOf(s) ensures y in KeysOf(a) + {x.0} + KeysOf(b) {
      var i :| 0 <= i < |s| && s[i].0 == y;
      if i < |a| {
        assert s[i] == a[i];
      } else if i > |a| {
        assert s[i] == b[i - |a| - 1];
      }
    }
  }

  /** An ascending list split around one entry: the search-tree order of a
      node read off its in-order traversal, in both directions. */
  lemma AscendingSplit<V>(a: seq<Entry<V>>, x: Entry<V>, b: seq<Entry<V>>)
    ensures Ascending(a + [x] + b) <==>
      && Ascending(a) && Ascending(b)
      && (forall y :: y in KeysOf(a) ==> Less(y, x.0))
      && (forall y :: y in KeysOf(b) ==> Less(x.0, y))
  {
    var s := a + [x] + b;
    if Ascending(s) {
      forall i, j | 0 <= i < j < |a| ensures Less(a[i].0, a[j].0) {
        assert a[i] == s[i] && a[j] == s[j];
      }
      forall i, j | 0 <= i < j < |b| ensures Less(b[i].0, b[j].0) {
        assert b[i] == s[|a| + 1 + i] && b[j] == s[|a| + 1 + j];
      }
      forall y | y in KeysOf(a) ensures Less(y, x.0) {
        var i :| 0 <= i < |a| && a[i].0 == y;
        assert a[i] == s[i] && x == s[|a|];
      }
      forall y | y in KeysOf(b) ensures Less(x.0, y) {
        var i :| 0 <= i < |b| && b[i].0 == y;
        assert b[i] == s[|a| + 1 + i] && x == s[|a|];
      }
    }
    if && Ascending(a) && Ascending(b)
       && (forall y :: y in KeysOf(a) ==> Less(y, x.0))
       && (forall y :: y in KeysOf(b) ==> Less(x.0, y))
    {
      forall i, j | 0 <= i < j < |s| ensures Less(s[i].0, s[j].0) {
        if j < |a| {
          assert s[i] == a[i] && s[j] == a[j];
        } else if i > |a| {
          assert s[i] == b[i - |a| - 1] && s[j] == b[j - |a| - 1];
        } else if i == |a| {
          assert s[j] == b[j - |a| - 1];
          assert s[j].0 in KeysOf(b);
        } else if j == |a| {
          assert s[i] == a[i];
          assert s[i].0 in KeysOf(a);
        } else {
          assert s[i] == a[i] && s[j] == b[j - |a| - 1];
          assert s[i].0 in KeysOf(a) && s[j].0 in KeysOf(b);
          LessTransitive(s[i].0, x.0, s[j].0);
        }
      }
    }
  }

  lemma {:induction false} LookupAbsent<V>(s: seq<Entry<V>>, j: Key)
    requires j !in KeysOf(s)
    ensures Lookup(s, j) == None
  {
    if s != [] {
      KeysOfCons(s[0], s[1..]);
      assert s == [s[0]] + s[1..];
      LookupAbsent(s[1..], j);
    }
  }

  lemma {:induction false} LookupAppend<V>(a: seq<Entry<V>>, b: seq<Entry<V>>, j: Key)
    requires j !in KeysOf(a)
    ensures Lookup(a + b, j) == Lookup(b, j)
  {
    if a == [] {
      assert a + b == b;
    } else {
      KeysOfCons(a[0], a[1..]);
      assert a == [a[0]] + a[1..];
      assert (a + b)[0] == a[0] && a[0].0 != j;
      assert (a + b)[1..] == a[1..] + b;
      LookupAppend(a[1..], b, j);
      assert Lookup(a + b, j) == Lookup(a[1..] + b, j);
    }
  }

  /** Looking a key up in an ascending list split around one entry descends
      the way a search-tree node does. */
  lemma LookupSplit<V>(a: seq<Entry<V>>, x: Entry<V>, b: seq<Entry<V>>, j: Key)
    requires Ascending(a + [x] + b)
    ensures Lookup(a + [x] + b, j) ==
      if Less(j, x.0) then Lookup(a, j)
      else if Less(x.0, j) then Lookup(b, j)
      else Some(x.1)
  {
    AscendingSplit(a, x, b);
    if j in KeysOf(a) {
      assert Less(j, x.0);
      LookupPrefix(a, [x] + b, j);
    } else {
      assert a + [x] + b == a + ([x] + b);
      LookupAppend(a, [x] + b, j);
      if Less(j, x.0) {
        if j in KeysOf(b) {
          LessAsymmetric(j, x.0);
        }
        assert !Less(j, j);
        LookupAbsent(a, j);
        LookupAbsent(b, j);
      } else if Less(x.0, j) {
        assert !Less(j, j);
      } else {
        LessTrichotomous(j, x.0);
      }
    }
  }

  lemma {:induction false} LookupPrefix<V>(a: seq<Entry<V>>, b: seq<Entry<V>>, j: Key)
    requires j in KeysOf(a)
    ensures Lookup(a + b, j) == Lookup(a, j)
  {
    KeysOfCons(a[0], a[1..]);
    assert a == [a[0]] + a[1..];
    assert (a + b)[1..] == a[1..] + b;
    if a[0].0 != j {
      LookupPrefix(a[1..], b, j);
    }
  }

  /** Map semantics of `Put`: the key put now maps to the new value and
      every other key to what it mapped to before. */
  lemma {:induction false} LookupPut<V>(s: seq<Entry<V>>, k: Key, v: V, j: Key)
    ensures Lookup(Put(s, k, v), j) == if j == k then Some(v) else Lookup(s, j)
  {
    if s != [] && !Less(k, s[0].0) {
      if Less(s[0].0, k) {
        LookupPut(s[1..], k, v, j);
      } else {
        LessTrichotomous(k, s[0].0);
      }
    }
  }

  lemma {:induction false} PutBefore<V>(a: seq<Entry<V>>, b: seq<Entry<V>>, k: Key, v: V)
    requires b != [] && Less(k, b[0].0)
    ensures Put(a + b, k, v) == Put(a, k, v) + b
  {
    if a != [] {
      assert (a + b)[0] == a[0];
      assert (a + b)[1..] == a[1..] + b;
      if !Less(k, a[0].0) && Less(a[0].0, k) {
        PutBefore(a[1..], b, k, v);
      }
    }
  }

  lemma {:induction false} PutAfter<V>(a: seq<Entry<V>>, b: seq<Entry<V>>, k: Key, v: V)
    requires forall i :: 0 <= i < |a| ==> Less(a[i].0, k)
    ensures Put(a + b, k, v) == a + Put(b, k, v)
  {
    if a == [] {
      assert a + b == b;
    } else {
      var t := a[1..];
      forall i | 0 <= i < |t| ensures Less(t[i].0, k) {
        assert t[i] == a[i + 1];
      }
      LessAsymmetric(a[0].0, k);
      PutAfter(t, b, k, v);
      assert a + b == [a[0]] + (t + b);
      PutCons(a[0], t + b, k, v);
      assert a == [a[0]] + t;
      assert [a[0]] + (t + Put(b, k, v)) == a + Put(b, k, v);
    }
  }

  /** One step of `Put` on a list given by its first entry. */
  lemma PutCons<V>(x: Entry<V>, b: seq<Entry<V>>, k: Key, v: V)
    ensures Put([x] + b, k, v) ==
      if Less(k, x.0) then [(k, v)] + ([x] + b)
      else if Less(x.0, k) then [x] + Put(b, k, v)
      else [(k, v)] + b
  {
    assert ([x] + b)[0] == x && ([x] + b)[1..] == b;
    if !Less(k, x.0) && !Less(x.0, k) {
      LessTrichotomous(k, x.0);
    }
  }

  /** Putting into an ascending list split around one entry descends the
      way a search-tree insertion does. */
  lemma PutSplit<V>(a: seq<Entry<V>>, x: Entry<V>, b: seq<Entry<V>>, k: Key, v: V)
    requires Ascending(a + [x] + b)
    ensures Put(a + [x] + b, k, v) ==
      if Less(k, x.0) then Put(a, k, v) + [x] + b
      else if Less(x.0, k) then a + [x] + Put(b, k, v)
      else a + [(k, v)] + b
  {
    AscendingSplit(a, x, b);
    assert a + [x] + b == a + ([x] + b);
    if Less(k, x.0) {
      PutBefore(a, [x] + b, k, v);
    } else {
      KeysBelow(a, x, k);
      PutAfter(a, [x] + b, k, v);
      PutCons(x, b, k, v);
    }
  }

  /** Every key below `x.0` is below a key `k` that is not below `x.0`. */
  lemma KeysBelow<V>(a: seq<Entry<V>>, x: Entry<V>, k: Key)
    requires forall y :: y in KeysOf(a) ==> Less(y, x.0)
    requires !Less(k, x.0)
    ensures forall i :: 0 <= i < |a| ==> Less(a[i].0, k)
  {
    LessTrichotomous(k, x.0);
    forall i | 0 <= i < |a| ensures Less(a[i].0, k) {
      assert a[i].0 in KeysOf(a);
      if Less(x.0, k) {
        LessTransitive(a[i].0, x.0, k);
      }
    }
  }

  /** Putting the value a key already maps to changes nothing. */
  lemma {:induction false} PutSame<V>(s: seq<Entry<V>>, k: Key, v: V)
    requires Ascending(s) && Lookup(s, k) == Some(v)
    ensures Put(s, k, v) == s
  {
    assert s != [];
    assert s == [s[0]] + s[1..];
    PutCons(s[0], s[1..], k, v);
    if s[0].0 == k {
      assert !Less(k, k);
      assert s[0] == (k, v);
      assert Put(s, k, v) == [(k, v)] + s[1..];
    } else if Less(s[0].0, k) {
      assert Ascending(s[1..]) by {
        forall i, j | 0 <= i < j < |s[1..]| ensures Less(s[1..][i].0, s[1..][j].0) {
          assert s[1..][i] == s[i + 1] && s[1..][j] == s[j + 1];
        }
      }
      PutSame(s[1..], k, v);
      LessAsymmetric(s[0].0, k);
      assert Put(s, k, v) == [s[0]] + s[1..];
    } else {
      LessTrichotomous(k, s[0].0);
      LessAsymmetric(k, s[0].0);
      if k !in KeysOf(s) {
        LookupAbsent(s, k);
      }
      assert false;
    }
  }

  /** Putting a key already present into an ascending list only replaces
      that entry's value: the keys, their order and the other values stay. */
  lemma {:induction false} PutExisting<V>(s: seq<Entry<V>>, k: Key, v: V)
    requires Ascending(s) && k in KeysOf(s)
    ensures |Put(s, k, v)| == |s|
    ensures forall i :: 0 <= i < |s| ==>
      Put(s, k, v)[i] == if s[i].0 == k then (k, v) else s[i]
  {
    KeysOfCons(s[0], s[1..]);
    assert s == [s[0]] + s[1..];
    if Less(k, s[0].0) {
      var i :| 0 <= i < |s| && s[i].0 == k;
      if i != 0 { LessAsymmetric(k, s[0].0); }
    } else if Less(s[0].0, k) {
      assert !Less(k, k);
      PutExisting(s[1..], k, v);
      forall i | 1 <= i < |s| ensures s[i].0 != s[0].0 {
        assert !Less(s[0].0, s[0].0);
      }
    } else {
      LessTrichotomous(k, s[0].0);
      forall i | 1 <= i < |s| ensures s[i].0 != k {
        assert !Less(k, k);
      }
    }
  }
}
