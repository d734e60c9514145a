/** `sorted(...)` of a set of strings, by code point. */
module SortedKeys {
  import opened WitnessSets

  predicate IsLeast(k: string, keys: set<string>) {
    k in keys && forall j :: j in keys ==> !Less(j, k)
  }

  lemma {:induction false} LeastExists(keys: set<string>)
    requires keys != {}
    ensures exists k :: IsLeast(k, keys)
  {
    var any :| any in keys;
    var rest := keys - {any};
    LessTrichotomy(any, any);
    if rest == {} {
      assert keys == rest + {any};
      assert IsLeast(any, keys);
    } else {
      LeastExists(rest);
      var k :| IsLeast(k, rest);
      LessTrichotomy(any, k);
      if Less(any, k) {
        forall j | j in keys ensures !Less(j, any) {
          if Less(j, any) {
            LessTransitive(j, any, k);
          }
        }
        assert IsLeast(any, keys);
      } else {
        assert forall j :: j in keys ==> j == any || j in rest;
        assert IsLeast(k, keys);
      }
    }
  }

  lemma LeastUnique(keys: set<string>)
    ensures forall k, l :: IsLeast(k, keys) && IsLeast(l, keys) ==> k == l
  {
    forall k, l | IsLeast(k, keys) && IsLeast(l, keys) ensures k == l {
      LessTrichotomy(k, l);
    }
  }

  function Least(keys: set<string>): (k: string)
    requires keys != {}
    ensures IsLeast(k, keys)
  {
    LeastExists(keys);
    LeastUnique(keys);
    var k :| IsLeast(k, keys);
    k
  }

  /** `sorted(keys)`: the one ordered listing without repetition. */
  function Sorted(keys: set<string>): (r: seq<string>)
    ensures Elements(r) == keys && Distinct(r) && Ordered(r)
  {
    if keys == {} then []
    else
      var k := Least(keys);
      var rest := Sorted(keys - {k});
      SortedStep(k, rest, keys);
      [k] + rest
  }

  lemma SortedOne(k: string)
    ensures Sorted({k}) == [k]
  {
    var r := Sorted({k});
    assert |r| == 1 && r[0] in Elements(r);
  }

  /** `sorted(set(a) & set(b))` is the overlap of a with b, when a is ordered and without repetition. */
  lemma OverlapIsSorted(a: seq<string>, b: seq<string>)
    requires Ordered(a) && Distinct(a)
    ensures Overlap(a, b) == Sorted(Elements(a) * Elements(b))
  {
    OverlapMembers(a, b);
    OverlapDistinct(a, b);
    OverlapOrdered(a, b);
    OrderedListingUnique(Overlap(a, b), Sorted(Elements(a) * Elements(b)));
  }

  lemma SortedStep(k: string, rest: seq<string>, keys: set<string>)
    requires IsLeast(k, keys) && Elements(rest) == keys - {k} && Distinct(rest) && Ordered(rest)
    ensures Elements([k] + rest) == keys && Distinct([k] + rest) && Ordered([k] + rest)
  {
    assert ([k] + rest)[1..] == rest;
    assert Elements([k] + rest) == Elements(rest) + {k};
    forall j | 0 <= j < |rest| ensures !Less(rest[j], k) {
      assert rest[j] in Elements(rest);
    }
  }
}
