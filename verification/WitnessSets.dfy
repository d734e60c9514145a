/** Ordered witness identifiers and the cardinality of quorum intersections. */
module WitnessSets {

  /** Code-point order of strings. */
  predicate Less(a: string, b: string) {
    if b == "" then false
    else if a == "" then true
    else a[0] < b[0] || (a[0] == b[0] && Less(a[1..], b[1..]))
  }

  lemma {:induction false} LessTrichotomy(a: string, b: string)
    ensures if a == b then !Less(a, b) else Less(a, b) != Less(b, a)
  {
    if a != "" && b != "" && a[0] == b[0] {
      LessTrichotomy(a[1..], b[1..]);
      assert a == [a[0]] + a[1..] && b == [b[0]] + b[1..];
    }
  }

  lemma {:induction false} LessTransitive(a: string, b: string, c: string)
    requires Less(a, b) && Less(b, c)
    ensures Less(a, c)
  {
    if a != "" && a[0] == b[0] == c[0] {
      LessTransitive(a[1..], b[1..], c[1..]);
    }
  }

  /** `ids == sorted(ids)`. */
  predicate Ordered(ids: seq<string>) {
    forall i, j :: 0 <= i < j < |ids| ==> !Less(ids[j], ids[i])
  }

  function Elements<T>(s: seq<T>): set<T> {
    set x | x in s
  }

  /** `len(ids) == len(set(ids))`. */
  predicate Distinct<T(==)>(s: seq<T>) {
    |Elements(s)| == |s|
  }

  lemma {:induction false} ElementsBound<T>(s: seq<T>)
    ensures |Elements(s)| <= |s|
  {
    if s != [] {
      ElementsBound(s[1..]);
      assert Elements(s) == Elements(s[1..]) + {s[0]};
    }
  }

  lemma {:induction false} DistinctStep<T>(s: seq<T>)
    requires s != []
    ensures Distinct(s) <==> Distinct(s[1..]) && s[0] !in s[1..]
  {
    ElementsBound(s[1..]);
    assert Elements(s) == Elements(s[1..]) + {s[0]};
    if s[0] in s[1..] {
      assert Elements(s) == Elements(s[1..]);
    }
  }

  /** Where a name occurs last: the entry a table built by name keeps. */
  function LastIndex(ids: seq<string>, id: string): (r: nat)
    requires id in ids
    ensures r < |ids| && ids[r] == id && id !in ids[r + 1..]
  {
    if ids[|ids| - 1] == id then |ids| - 1 else LastIndex(ids[..|ids| - 1], id)
  }

  /** The names of a list of records, in order. */
  function NamesOf<O>(records: seq<O>, name: O -> string): (r: seq<string>)
    ensures |r| == |records|
    ensures forall i :: 0 <= i < |r| ==> r[i] == name(records[i])
  {
    seq(|records|, i requires 0 <= i < |records| => name(records[i]))
  }

  /** The entry of a table built by name: the last record of that name. */
  function LastNamed<O>(records: seq<O>, name: O -> string, id: string): (o: O)
    requires id in NamesOf(records, name)
    ensures o in records && name(o) == id
  {
    records[LastIndex(NamesOf(records, name), id)]
  }

  /** In a list without repeated names every record is found by its name. */
  lemma FoundByName<O>(records: seq<O>, name: O -> string, i: nat)
    requires i < |records| && Distinct(NamesOf(records, name))
    ensures name(records[i]) in NamesOf(records, name)
    ensures LastNamed(records, name, name(records[i])) == records[i]
  {
    hide Distinct;
    DistinctNames(NamesOf(records, name));
    assert NamesOf(records, name)[i] == name(records[i]);
  }

  lemma {:induction false} DistinctNames(ids: seq<string>)
    requires Distinct(ids)
    ensures forall i, j :: 0 <= i < j < |ids| ==> ids[i] != ids[j]
  {
    hide Distinct;
    if ids != [] {
      DistinctStep(ids);
      DistinctNames(ids[1..]);
      forall i, j | 0 <= i < j < |ids| ensures ids[i] != ids[j] {
        assert ids[j] == ids[1..][j - 1];
        assert i > 0 ==> ids[i] == ids[1..][i - 1];
      }
    }
  }

  /** The members of a that also occur in b, in the order of a. When a is ordered this is
      `sorted(set(a) & set(b))` (`SortedKeys.OverlapIsSorted`). */
  function Overlap(a: seq<string>, b: seq<string>): seq<string> {
    if a == [] then []
    else (if a[0] in b then [a[0]] else []) + Overlap(a[1..], b)
  }

  lemma {:induction false} OverlapMembers(a: seq<string>, b: seq<string>)
    ensures Elements(Overlap(a, b)) == Elements(a) * Elements(b)
  {
    if a != [] {
      OverlapMembers(a[1..], b);
      var head := if a[0] in b then [a[0]] else [];
      assert Elements(Overlap(a, b)) == Elements(head) + Elements(Overlap(a[1..], b));
      assert Elements(a) == Elements(a[1..]) + {a[0]};
    }
  }

  lemma {:induction false} OverlapDistinct(a: seq<string>, b: seq<string>)
    requires Distinct(a)
    ensures Distinct(Overlap(a, b))
  {
    if a != [] {
      DistinctStep(a);
      OverlapDistinct(a[1..], b);
      OverlapMembers(a[1..], b);
      if a[0] in b {
        assert a[0] !in Elements(Overlap(a[1..], b));
        assert Overlap(a, b)[1..] == Overlap(a[1..], b);
        DistinctStep(Overlap(a, b));
      } else {
        assert Overlap(a, b) == Overlap(a[1..], b);
      }
    }
  }

  lemma {:induction false} OverlapOrdered(a: seq<string>, b: seq<string>)
    requires Ordered(a)
    ensures Ordered(Overlap(a, b))
  {
    if a != [] {
      OverlapOrdered(a[1..], b);
      OverlapMembers(a[1..], b);
      var rest := Overlap(a[1..], b);
      forall j | 0 <= j < |rest| ensures !Less(rest[j], a[0]) {
        assert rest[j] in Elements(rest);
        assert rest[j] in a[1..];
      }
    }
  }

  /** An ordered duplicate-free listing of a set is unique. */
  lemma {:induction false} OrderedListingUnique(a: seq<string>, b: seq<string>)
    requires Ordered(a) && Ordered(b) && Distinct(a) && Distinct(b) && Elements(a) == Elements(b)
    ensures a == b
    decreases |a|
  {
    assert |a| == |b|;
    if a != [] {
      DistinctStep(a);
      DistinctStep(b);
      assert a[0] in Elements(b) && b[0] in Elements(a);
      LessTrichotomy(a[0], b[0]);
      assert !Less(b[0], a[0]) && !Less(a[0], b[0]);
      assert Elements(a[1..]) == Elements(a) - {a[0]};
      assert Elements(b[1..]) == Elements(b) - {b[0]};
      OrderedListingUnique(a[1..], b[1..]);
    }
  }

  /** Two quorums of a common electorate share at least |a| + |b| - |electorate| members. */
  lemma QuorumsIntersect(a: seq<string>, b: seq<string>, electorate: seq<string>)
    requires Distinct(a) && Distinct(b) && Distinct(electorate)
    requires Elements(a) <= Elements(electorate) && Elements(b) <= Elements(electorate)
    ensures |Overlap(a, b)| >= |a| + |b| - |electorate|
  {
    OverlapMembers(a, b);
    OverlapDistinct(a, b);
    var sa, sb, all := Elements(a), Elements(b), Elements(electorate);
    assert |sa + sb| == |sa| + |sb| - |sa * sb|;
    SubsetSize(sa + sb, all);
  }

  /** Three quorums of a common electorate share at least the excess of their sizes over twice the electorate. */
  lemma ThreeQuorumsIntersect(a: seq<string>, b: seq<string>, c: seq<string>, electorate: seq<string>)
    requires Distinct(a) && Distinct(b) && Distinct(c) && Distinct(electorate)
    requires Elements(a) <= Elements(electorate) && Elements(b) <= Elements(electorate)
    requires Elements(c) <= Elements(electorate)
    ensures |Overlap(a, Overlap(b, c))| >= |a| + |b| + |c| - 2 * |electorate|
    ensures Distinct(Overlap(a, Overlap(b, c)))
    ensures Elements(Overlap(a, Overlap(b, c))) == Elements(a) * Elements(b) * Elements(c)
  {
    hide Distinct;
    QuorumsIntersect(b, c, electorate);
    OverlapMembers(b, c);
    OverlapDistinct(b, c);
    QuorumsIntersect(a, Overlap(b, c), electorate);
    OverlapMembers(a, Overlap(b, c));
    OverlapDistinct(a, Overlap(b, c));
  }

  /** The list without positions a to b. */
  function Without(ids: seq<string>, a: nat, b: nat): seq<string>
    requires a <= b <= |ids|
  {
    ids[..a] + ids[b..]
  }

  /** An ordered list without repetition stays one when positions are dropped. */
  lemma WithoutFacts(ids: seq<string>, a: nat, b: nat)
    requires Ordered(ids) && Distinct(ids) && a <= b <= |ids|
    ensures var kept := Without(ids, a, b);
            Ordered(kept) && Distinct(kept) && |kept| == |ids| - (b - a) && Elements(kept) <= Elements(ids)
    ensures forall i :: 0 <= i < |ids| ==> (ids[i] in Without(ids, a, b) <==> i < a || b <= i)
  {
    var kept := Without(ids, a, b);
    DistinctNames(ids);
    assert forall j :: 0 <= j < |kept| ==> kept[j] == ids[if j < a then j else j + (b - a)];
    NamesAreDistinct(kept);
    forall i | 0 <= i < |ids| && (i < a || b <= i) ensures ids[i] in kept {
      assert kept[if i < a then i else i - (b - a)] == ids[i];
    }
  }

  lemma {:induction false} NamesAreDistinct(ids: seq<string>)
    requires forall i, j :: 0 <= i < j < |ids| ==> ids[i] != ids[j]
    ensures Distinct(ids)
  {
    hide Distinct;
    if ids == [] {
      NoNames();
    } else {
      NamesAreDistinct(ids[1..]);
      DistinctStep(ids);
    }
  }

  lemma NoNames()
    ensures Distinct<string>([])
  {
    assert Elements<string>([]) == {};
  }

  /** The bound on three quorums is met, for every electorate and every majority threshold. */
  lemma ThreeQuorumsMayMeetExactly(ids: seq<string>, t: nat) returns (x: seq<string>, y: seq<string>, z: seq<string>)
    requires Ordered(ids) && Distinct(ids) && t <= |ids| < 2 * t
    ensures forall s :: s in [x, y, z] ==> Ordered(s) && Distinct(s) && |s| == t && Elements(s) <= Elements(ids)
    ensures |Overlap(x, Overlap(y, z))| == if 3 * t > 2 * |ids| then 3 * t - 2 * |ids| else 0
  {
    hide Distinct, Ordered, Overlap, Without;
    var n, f := |ids|, |ids| - t;
    var from := if 3 * f <= n then 2 * f else t;
    x, y, z := Without(ids, 0, f), Without(ids, f, 2 * f), Without(ids, from, from + f);
    WithoutFacts(ids, 0, f);
    WithoutFacts(ids, f, 2 * f);
    WithoutFacts(ids, from, from + f);
    var shared := if 3 * f <= n then 3 * f else n;
    WithoutFacts(ids, 0, shared);
    forall i | 0 <= i < n
      ensures ids[i] in x && ids[i] in y && ids[i] in z <==> ids[i] in Without(ids, 0, shared)
    {
    }
    CommonSize(ids, x, y, z, Without(ids, 0, shared));
  }

  lemma CommonSize(ids: seq<string>, x: seq<string>, y: seq<string>, z: seq<string>, common: seq<string>)
    requires Distinct(x) && Distinct(y) && Distinct(z) && Distinct(common)
    requires Elements(x) <= Elements(ids) && Elements(common) <= Elements(ids)
    requires forall i :: 0 <= i < |ids| ==> (ids[i] in x && ids[i] in y && ids[i] in z <==> ids[i] in common)
    ensures |Overlap(x, Overlap(y, z))| == |common|
  {
    hide Distinct, Overlap;
    OverlapMembers(y, z);
    OverlapMembers(x, Overlap(y, z));
    OverlapDistinct(y, z);
    OverlapDistinct(x, Overlap(y, z));
    forall id ensures id in Elements(x) * (Elements(y) * Elements(z)) <==> id in Elements(common) {
      assert id in x ==> id in Elements(ids);
      assert id in common ==> id in Elements(ids);
      if id in ids {
        var i :| 0 <= i < |ids| && ids[i] == id;
      }
    }
    SameElementsSameSize(Overlap(x, Overlap(y, z)), common);
  }

  lemma SameElementsSameSize(a: seq<string>, b: seq<string>)
    requires Distinct(a) && Distinct(b) && Elements(a) == Elements(b)
    ensures |a| == |b|
  {
  }

  lemma {:induction false} SubsetSize<T>(small: set<T>, large: set<T>)
    requires small <= large
    ensures |small| <= |large|
  {
    assert large == small + (large - small);
  }
}
