/** Optional values, and the ascending order of the keys of a map. */
module Collections {
  datatype Option<+T> = None | Some(value: T)

  lemma SomeElement(ks: set<int>)
    requires ks != {}
    ensures exists k :: k in ks
  {
    if forall k :: k !in ks {
      assert false;
    }
  }

  lemma Least(ks: set<int>) returns (k: int)
    requires ks != {}
    ensures k in ks && forall j :: j in ks ==> k <= j
  {
    SomeElement(ks);
    var x :| x in ks;
    k := x;
    if ks != {x} {
      var r := Least(ks - {x});
      k := if r < x then r else x;
      forall j | j in ks ensures k <= j {
        assert j == x || j in ks - {x};
      }
    }
  }

  /** The order in which an ordered map is iterated. */
  ghost predicate IsOrder(ks: seq<int>, keys: set<int>) {
    && (forall i, j :: 0 <= i < j < |ks| ==> ks[i] < ks[j])
    && (forall k :: k in ks <==> k in keys)
  }

  method SortedKeys(keys: set<int>) returns (ks: seq<int>)
    ensures IsOrder(ks, keys)
  {
    ks := [];
    var rest := keys;
    while rest != {}
      invariant rest <= keys
      invariant forall i, j :: 0 <= i < j < |ks| ==> ks[i] < ks[j]
      invariant forall k :: k in ks <==> k in keys && k !in rest
      invariant forall i, k :: 0 <= i < |ks| && k in rest ==> ks[i] < k
      decreases rest
    {
      ghost var least := Least(rest);
      var k :| k in rest && forall j :: j in rest ==> k <= j;
      ks, rest := ks + [k], rest - {k};
    }
  }
}
