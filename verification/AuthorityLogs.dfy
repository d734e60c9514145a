/** Whole logs of anchor statements by one authority, and which pairs out of two logs the equivocation detectors report.
    Both anchor profiles state their results through the entries defined here. */
module AuthorityLogs {
  import opened Prelude
  import opened Records

  datatype ConflictMode = SameSequenceConflict | SameSizeRootConflict

  /** What a detector reads of one statement; two statements are comparable when their contexts are equal. */
  datatype Entry<C> = Entry(context: C, sequence: int, previous: Digest, statement: Digest, anchor: Digest,
                            treeSize: int, root: MerkleHash)

  function EntryConflict<C(==)>(a: Entry<C>, b: Entry<C>): Option<ConflictMode> {
    if a.context != b.context then None
    else if a.sequence == b.sequence && a.previous == b.previous && a.anchor != b.anchor then Some(SameSequenceConflict)
    else if a.treeSize == b.treeSize && a.root != b.root then Some(SameSizeRootConflict)
    else None
  }

  /** What every accepted successor statement does. */
  predicate Follows<C(==)>(before: Entry<C>, after: Entry<C>) {
    && after.context == before.context
    && after.sequence == before.sequence + 1
    && after.previous == before.statement
    && before.treeSize < after.treeSize
  }

  ghost predicate Log<C>(a: seq<Entry<C>>) {
    |a| > 0 && forall i :: 0 < i < |a| ==> Follows(a[i - 1], a[i])
  }

  /** Digests are collision-free: a statement digest fixes the entry, an anchor digest the tree size and the root. */
  ghost predicate Faithful<C>(a: seq<Entry<C>>, b: seq<Entry<C>>) {
    forall x, y :: x in a && y in b ==>
      && (x.statement == y.statement ==> x == y)
      && (x.anchor == y.anchor ==> x.treeSize == y.treeSize && x.root == y.root)
  }

  /** The two logs agree on their first d entries and differ in the next one. */
  ghost predicate SplitAt<C>(a: seq<Entry<C>>, b: seq<Entry<C>>, d: nat) {
    && d < |a| && d < |b|
    && a[..d] == b[..d]
    && a[d] != b[d]
    && a[d].context == b[d].context && a[d].sequence == b[d].sequence && a[d].previous == b[d].previous
  }

  lemma {:induction false} EntriesAdvance<C>(a: seq<Entry<C>>, i: nat, j: nat)
    requires Log(a) && i <= j < |a|
    ensures a[j].context == a[i].context
    ensures a[j].sequence == a[i].sequence + (j - i)
    ensures a[i].treeSize + (j - i) <= a[j].treeSize
    decreases j - i
  {
    if i < j {
      EntriesAdvance(a, i, j - 1);
    }
  }

  /** No false alarm: two entries of one log are never reported against each other. */
  lemma OneLogNeverConflicts<C>(a: seq<Entry<C>>, i: nat, j: nat)
    requires Log(a) && i < |a| && j < |a|
    ensures EntryConflict(a[i], a[j]).None?
  {
    if i < j {
      EntriesAdvance(a, i, j);
    } else {
      EntriesAdvance(a, j, i);
    }
  }

  /** Two logs that start alike either nest or split. */
  lemma {:induction false} LogsNestOrSplit<C>(a: seq<Entry<C>>, b: seq<Entry<C>>) returns (d: nat)
    requires Log(a) && Log(b)
    requires a[0].context == b[0].context && a[0].sequence == b[0].sequence && a[0].previous == b[0].previous
    ensures a <= b || b <= a || SplitAt(a, b, d)
  {
    d := 0;
    while d < |a| && d < |b| && a[d] == b[d]
      invariant d <= |a| && d <= |b| && a[..d] == b[..d]
    {
      d := d + 1;
    }
    if d < |a| && d < |b| && d > 0 {
      assert a[d - 1] == a[..d][d - 1] == b[d - 1];
      assert Follows(a[d - 1], a[d]) && Follows(b[d - 1], b[d]);
    }
  }

  /** Past the split the two logs never name a common predecessor again. */
  lemma {:induction false} PredecessorsStayApart<C>(a: seq<Entry<C>>, b: seq<Entry<C>>, d: nat, i: nat)
    requires Log(a) && Log(b) && Faithful(a, b) && SplitAt(a, b, d)
    requires d < i < |a| && i < |b|
    ensures a[i].previous != b[i].previous
  {
    assert Follows(a[i - 1], a[i]) && Follows(b[i - 1], b[i]);
    assert a[i - 1] in a && b[i - 1] in b;
    if i > d + 1 {
      PredecessorsStayApart(a, b, d, i - 1);
    }
  }

  lemma EntryOfPrefix<C>(a: seq<Entry<C>>, b: seq<Entry<C>>, d: nat, i: nat)
    requires SplitAt(a, b, d) && i < d
    ensures a[i] == b[i]
  {
    assert a[..d][i] == b[..d][i];
  }

  /** A reported pair lies at the split with different anchors, or strictly past it with one size and two roots. */
  lemma ReportedPairs<C>(a: seq<Entry<C>>, b: seq<Entry<C>>, d: nat, i: nat, j: nat)
    requires Log(a) && Log(b) && Faithful(a, b) && SplitAt(a, b, d)
    requires i < |a| && j < |b| && EntryConflict(a[i], b[j]).Some?
    ensures a[d].anchor != b[d].anchor || (d < i && d < j && a[i].treeSize == b[j].treeSize && a[i].root != b[j].root)
  {
    if i < d {
      EntryOfPrefix(a, b, d, i);
      OneLogNeverConflicts(b, i, j);
    } else if j < d {
      EntryOfPrefix(a, b, d, j);
      OneLogNeverConflicts(a, i, j);
    } else if a[d].anchor == b[d].anchor {
      assert a[d] in a && b[d] in b;
      EntriesAdvance(a, d, i);
      EntriesAdvance(b, d, j);
      if i == j > d {
        PredecessorsStayApart(a, b, d, i);
      }
    }
  }

  ghost predicate SomeConflict<C(!new)>(a: seq<Entry<C>>, b: seq<Entry<C>>) {
    exists i, j :: 0 <= i < |a| && 0 <= j < |b| && EntryConflict(a[i], b[j]).Some?
  }

  lemma ConflictsAreMutual<C(!new)>(a: seq<Entry<C>>, b: seq<Entry<C>>)
    ensures SomeConflict(a, b) ==> SomeConflict(b, a)
  {
    if SomeConflict(a, b) {
      var i, j :| 0 <= i < |a| && 0 <= j < |b| && EntryConflict(a[i], b[j]).Some?;
      assert EntryConflict(b[j], a[i]).Some?;
    }
  }

  /** Past index d some two entries have one tree size and different roots. */
  ghost predicate SizesMeetWithTwoRoots<C(!new)>(a: seq<Entry<C>>, b: seq<Entry<C>>, d: nat) {
    exists i, j :: d < i < |a| && d < j < |b| && a[i].treeSize == b[j].treeSize && a[i].root != b[j].root
  }

  /** Two logs that split at d contain a reported pair exactly when the entries at d name different anchors, or the logs
      later reach one tree size with different roots. Different anchors at d are themselves reported. */
  lemma SplitDetectionExact<C(!new)>(a: seq<Entry<C>>, b: seq<Entry<C>>, d: nat)
    requires Log(a) && Log(b) && Faithful(a, b) && SplitAt(a, b, d)
    ensures SomeConflict(a, b) <==> a[d].anchor != b[d].anchor || SizesMeetWithTwoRoots(a, b, d)
    ensures a[d].anchor != b[d].anchor ==> EntryConflict(a[d], b[d]) == Some(SameSequenceConflict)
  {
    hide EntryConflict, Faithful, Follows;
    if SomeConflict(a, b) {
      var i, j :| 0 <= i < |a| && 0 <= j < |b| && EntryConflict(a[i], b[j]).Some?;
      ReportedPairs(a, b, d, i, j);
    }
    DifferencesAreReported(a, b, d);
  }

  lemma DifferencesAreReported<C(!new)>(a: seq<Entry<C>>, b: seq<Entry<C>>, d: nat)
    requires Log(a) && Log(b) && SplitAt(a, b, d)
    ensures SizesMeetWithTwoRoots(a, b, d) ==> SomeConflict(a, b)
    ensures a[d].anchor != b[d].anchor ==> EntryConflict(a[d], b[d]) == Some(SameSequenceConflict)
  {
    hide Follows;
    if SizesMeetWithTwoRoots(a, b, d) {
      var i, j :| d < i < |a| && d < j < |b| && a[i].treeSize == b[j].treeSize && a[i].root != b[j].root;
      EntriesAdvance(a, d, i);
      EntriesAdvance(b, d, j);
      assert EntryConflict(a[i], b[j]).Some?;
    }
  }

  /** Without a split there is nothing to report. */
  lemma NestedLogsNeverConflict<C(!new)>(a: seq<Entry<C>>, b: seq<Entry<C>>)
    requires Log(b) && a <= b
    ensures !SomeConflict(a, b)
  {
    hide EntryConflict, Follows;
    if SomeConflict(a, b) {
      var i, j :| 0 <= i < |a| && 0 <= j < |b| && EntryConflict(a[i], b[j]).Some?;
      OneLogNeverConflicts(b, i, j);
    }
  }
}
