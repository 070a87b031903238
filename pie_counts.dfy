/** The pie chart's table: `value_counts(dropna=True, sort=True)` on the `PU_cleaned`
    column of the selected rows, giving one entry per publisher name with the number of
    rows carrying it, largest count first, missing names not counted. Entries whose count
    is below three are then renamed "Other" in place; the counts themselves are not
    merged, so several "Other" entries may remain. */
module PieCounts {
  import opened Wrappers
  import opened Seqs
  import opened Records

  /** Entries with a count below this are shown as "Other". */
  const MIN_NAMED_COUNT: nat := 3
  const OTHER_LABEL: string := "Other"

  /** `df[filt]['PU_cleaned']`: the publisher-name column of the selected rows. */
  function Labels(rows: seq<Joined>): seq<Option<string>> {
    seq(|rows|, i requires 0 <= i < |rows| => rows[i].PU_cleaned)
  }

  predicate HasPublisherName(j: Joined) {
    j.PU_cleaned.Some?
  }

  /** How many cells hold the name `v`. */
  function Occurrences(xs: seq<Option<string>>, v: string): nat {
    multiset(xs)[Some(v)]
  }

  /** How many cells are present. */
  function PresentCount(xs: seq<Option<string>>): nat {
    if xs == [] then 0 else (if xs[0].Some? then 1 else 0) + PresentCount(xs[1..])
  }

  /** The sum of the counts: what the pie's slices add up to. */
  function Total(es: seq<PieEntry>): nat {
    if es == [] then 0 else es[0].count + Total(es[1..])
  }

  /** The count of the first entry named `w`, or 0 when there is none. */
  function CountOf(es: seq<PieEntry>, w: string): nat {
    if es == [] then 0 else if es[0].PU_cleaned == w then es[0].count else CountOf(es[1..], w)
  }

  function Names(es: seq<PieEntry>): set<string> {
    set i | 0 <= i < |es| :: es[i].PU_cleaned
  }

  predicate DistinctNames(es: seq<PieEntry>) {
    forall i, j :: 0 <= i < j < |es| ==> es[i].PU_cleaned != es[j].PU_cleaned
  }

  predicate PositiveCounts(es: seq<PieEntry>) {
    forall i :: 0 <= i < |es| ==> es[i].count > 0
  }

  /** Largest count first. */
  predicate SortedByCount(es: seq<PieEntry>) {
    forall i, j :: 0 <= i < j < |es| ==> es[i].count >= es[j].count
  }

  /** Counts one more occurrence of `v`: its entry grows by one, or a new entry with
      count 1 is appended when `v` has none yet. */
  function Bump(es: seq<PieEntry>, v: string): seq<PieEntry> {
    if es == [] then [PieEntry(v, 1)]
    else if es[0].PU_cleaned == v then [es[0].(count := es[0].count + 1)] + es[1..]
    else [es[0]] + Bump(es[1..], v)
  }

  /** Counts the cells of `xs` into `acc`, left to right, skipping missing cells. */
  function TallyFrom(acc: seq<PieEntry>, xs: seq<Option<string>>): seq<PieEntry>
    decreases |xs|
  {
    if xs == [] then acc
    else
      var next := match xs[0] case None => acc case Some(v) => Bump(acc, v);
      TallyFrom(next, xs[1..])
  }

  /** Puts `e` before the first entry whose count is not larger, so that equal counts keep
      their order. */
  function Insert(e: PieEntry, es: seq<PieEntry>): seq<PieEntry> {
    if es == [] || e.count >= es[0].count then [e] + es else [es[0]] + Insert(e, es[1..])
  }

  function SortByCount(es: seq<PieEntry>): seq<PieEntry> {
    if es == [] then [] else Insert(es[0], SortByCount(es[1..]))
  }

  /** `value_counts(dropna=True, sort=True)`; among equal counts the names keep the order
      in which they first appear. */
  function ValueCounts(xs: seq<Option<string>>): seq<PieEntry> {
    SortByCount(TallyFrom([], xs))
  }

  /** Line 155 applied to one entry. */
  function Relabel(e: PieEntry): PieEntry {
    if e.count < MIN_NAMED_COUNT then e.(PU_cleaned := OTHER_LABEL) else e
  }

  function Relabeled(es: seq<PieEntry>): seq<PieEntry> {
    seq(|es|, i requires 0 <= i < |es| => Relabel(es[i]))
  }

  /** `df_pie_counts_reset.loc[count < 3, 'PU_cleaned'] = 'Other'`, in place. */
  method RelabelSmallSlices(a: array<PieEntry>)
    modifies a
    ensures a[..] == Relabeled(old(a[..]))
  {
    for i := 0 to a.Length
      invariant forall k :: 0 <= k < i ==> a[k] == Relabel(old(a[k]))
      invariant forall k :: i <= k < a.Length ==> a[k] == old(a[k])
    {
      if a[i].count < MIN_NAMED_COUNT {
        a[i] := a[i].(PU_cleaned := OTHER_LABEL);
      }
    }
  }

  // ---- the tally ----

  lemma DistinctCons(e: PieEntry, es: seq<PieEntry>)
    ensures DistinctNames([e] + es) <==> e.PU_cleaned !in Names(es) && DistinctNames(es)
  {
    var s := [e] + es;
    if DistinctNames(s) {
      forall i, j | 0 <= i < j < |es|
        ensures es[i].PU_cleaned != es[j].PU_cleaned
      {
        assert s[i + 1] == es[i] && s[j + 1] == es[j];
      }
      forall i | 0 <= i < |es|
        ensures es[i].PU_cleaned != e.PU_cleaned
      {
        assert s[0] == e && s[i + 1] == es[i];
      }
    }
    if e.PU_cleaned !in Names(es) && DistinctNames(es) {
      forall i, j | 0 <= i < j < |s|
        ensures s[i].PU_cleaned != s[j].PU_cleaned
      {
        assert s[j] == es[j - 1];
        if i > 0 {
          assert s[i] == es[i - 1];
        }
      }
    }
  }

  lemma NamesCons(e: PieEntry, es: seq<PieEntry>)
    ensures Names([e] + es) == {e.PU_cleaned} + Names(es)
  {
    var s := [e] + es;
    forall w | w in Names(s)
      ensures w in {e.PU_cleaned} + Names(es)
    {
      var i :| 0 <= i < |s| && s[i].PU_cleaned == w;
      if i > 0 {
        assert s[i] == es[i - 1];
      }
    }
    forall w | w in Names(es)
      ensures w in Names(s)
    {
      var i :| 0 <= i < |es| && es[i].PU_cleaned == w;
      assert s[i + 1] == es[i];
    }
    assert s[0] == e;
  }

  /** One more occurrence of `v` raises only `v`'s count, by one, and the total by one. */
  lemma {:induction false} BumpCounts(es: seq<PieEntry>, v: string)
    ensures forall w :: CountOf(Bump(es, v), w) == CountOf(es, w) + (if w == v then 1 else 0)
    ensures Total(Bump(es, v)) == Total(es) + 1
  {
    if es != [] && es[0].PU_cleaned != v {
      BumpCounts(es[1..], v);
      assert Bump(es, v)[1..] == Bump(es[1..], v);
    }
  }

  /** The names gain `v` and nothing else. */
  lemma {:induction false} BumpNames(es: seq<PieEntry>, v: string)
    ensures Names(Bump(es, v)) == Names(es) + {v}
  {
    if es == [] {
      NamesCons(PieEntry(v, 1), []);
    } else {
      assert es == [es[0]] + es[1..];
      NamesCons(es[0], es[1..]);
      if es[0].PU_cleaned == v {
        NamesCons(es[0].(count := es[0].count + 1), es[1..]);
      } else {
        BumpNames(es[1..], v);
        NamesCons(es[0], Bump(es[1..], v));
      }
    }
  }

  lemma {:induction false} BumpPositive(es: seq<PieEntry>, v: string)
    requires PositiveCounts(es)
    ensures PositiveCounts(Bump(es, v))
  {
    if es != [] && es[0].PU_cleaned != v {
      assert PositiveCounts(es[1..]) by {
        forall k | 0 <= k < |es[1..]|
          ensures es[1..][k].count > 0
        {
          assert es[1..][k] == es[k + 1];
        }
      }
      BumpPositive(es[1..], v);
      var b := Bump(es, v);
      forall i | 0 <= i < |b|
        ensures b[i].count > 0
      {
        if i > 0 {
          assert b[i] == Bump(es[1..], v)[i - 1];
        }
      }
    } else if es != [] {
      var b := Bump(es, v);
      forall i | 0 <= i < |b|
        ensures b[i].count > 0
      {
        if i > 0 {
          assert b[i] == es[i];
        }
      }
    }
  }

  lemma {:induction false} BumpDistinct(es: seq<PieEntry>, v: string)
    requires DistinctNames(es)
    ensures DistinctNames(Bump(es, v))
  {
    if es == [] {
      DistinctCons(PieEntry(v, 1), []);
    } else {
      assert es == [es[0]] + es[1..];
      DistinctCons(es[0], es[1..]);
      if es[0].PU_cleaned == v {
        DistinctCons(es[0].(count := es[0].count + 1), es[1..]);
      } else {
        BumpDistinct(es[1..], v);
        BumpNames(es[1..], v);
        DistinctCons(es[0], Bump(es[1..], v));
      }
    }
  }

  /** The tally adds each name's number of occurrences to its count, adds the number of
      present cells to the total, and keeps names distinct and counts positive. */
  lemma {:induction false} TallyFromSpec(acc: seq<PieEntry>, xs: seq<Option<string>>)
    requires DistinctNames(acc) && PositiveCounts(acc)
    decreases |xs|
    ensures var t := TallyFrom(acc, xs);
      && (forall w :: CountOf(t, w) == CountOf(acc, w) + Occurrences(xs, w))
      && Total(t) == Total(acc) + PresentCount(xs)
      && (forall w :: w in Names(t) <==> w in Names(acc) || Some(w) in xs)
      && DistinctNames(t)
      && PositiveCounts(t)
  {
    if xs != [] {
      assert xs == [xs[0]] + xs[1..];
      var next := match xs[0] case None => acc case Some(v) => Bump(acc, v);
      if xs[0].Some? {
        BumpCounts(acc, xs[0].value);
        BumpNames(acc, xs[0].value);
        BumpPositive(acc, xs[0].value);
        BumpDistinct(acc, xs[0].value);
      }
      TallyFromSpec(next, xs[1..]);
      assert multiset(xs) == multiset{xs[0]} + multiset(xs[1..]);
    }
  }

  /** With distinct names an entry's count is what `CountOf` finds for its name. */
  lemma {:induction false} CountOfEntry(es: seq<PieEntry>, i: int)
    requires DistinctNames(es) && 0 <= i < |es|
    ensures CountOf(es, es[i].PU_cleaned) == es[i].count
  {
    if i > 0 {
      assert es == [es[0]] + es[1..];
      DistinctCons(es[0], es[1..]);
      assert es[1..][i - 1] == es[i];
      CountOfEntry(es[1..], i - 1);
    }
  }

  // ---- the sort ----

  /** Inserting adds exactly the inserted entry: the result is a permutation of the
      entries plus the new one. */
  lemma {:induction false} InsertPermutes(e: PieEntry, es: seq<PieEntry>)
    ensures multiset(Insert(e, es)) == multiset(es) + multiset{e}
  {
    if es != [] && e.count < es[0].count {
      InsertPermutes(e, es[1..]);
      assert es == [es[0]] + es[1..];
    }
  }

  lemma {:induction false} InsertNames(e: PieEntry, es: seq<PieEntry>)
    ensures Names(Insert(e, es)) == Names(es) + {e.PU_cleaned}
  {
    if es == [] || e.count >= es[0].count {
      NamesCons(e, es);
    } else {
      InsertNames(e, es[1..]);
      assert es == [es[0]] + es[1..];
      NamesCons(es[0], es[1..]);
      NamesCons(es[0], Insert(e, es[1..]));
    }
  }

  lemma {:induction false} InsertTotal(e: PieEntry, es: seq<PieEntry>)
    ensures Total(Insert(e, es)) == e.count + Total(es)
  {
    if es != [] && e.count < es[0].count {
      InsertTotal(e, es[1..]);
      assert Insert(e, es)[1..] == Insert(e, es[1..]);
    }
  }

  lemma SortedTail(es: seq<PieEntry>)
    requires es != [] && SortedByCount(es)
    ensures SortedByCount(es[1..])
    ensures forall k :: 0 <= k < |es[1..]| ==> es[0].count >= es[1..][k].count
  {
    forall i, j | 0 <= i < j < |es[1..]|
      ensures es[1..][i].count >= es[1..][j].count
    {
      assert es[1..][i] == es[i + 1] && es[1..][j] == es[j + 1];
    }
    forall k | 0 <= k < |es[1..]|
      ensures es[0].count >= es[1..][k].count
    {
      assert es[1..][k] == es[k + 1];
    }
  }

  /** Putting a first entry whose count is at least every other count keeps the order. */
  lemma SortedCons(e: PieEntry, es: seq<PieEntry>)
    requires SortedByCount(es)
    requires forall k :: 0 <= k < |es| ==> e.count >= es[k].count
    ensures SortedByCount([e] + es)
  {
    var r := [e] + es;
    forall i, j | 0 <= i < j < |r|
      ensures r[i].count >= r[j].count
    {
      assert r[j] == es[j - 1];
      if i > 0 {
        assert r[i] == es[i - 1];
      }
    }
  }

  /** Inserting into a list sorted by count keeps it sorted. */
  lemma {:induction false} InsertSorted(e: PieEntry, es: seq<PieEntry>)
    requires SortedByCount(es)
    ensures SortedByCount(Insert(e, es))
  {
    if es == [] || e.count >= es[0].count {
      if es != [] {
        SortedTail(es);
        forall k | 0 <= k < |es|
          ensures e.count >= es[k].count
        {
          if k > 0 {
            assert es[k] == es[1..][k - 1];
          }
        }
      }
      SortedCons(e, es);
    } else {
      var tail := Insert(e, es[1..]);
      SortedTail(es);
      InsertSorted(e, es[1..]);
      InsertPermutes(e, es[1..]);
      forall j | 0 <= j < |tail|
        ensures es[0].count >= tail[j].count
      {
        assert tail[j] in multiset(tail);
        if tail[j] != e {
          assert tail[j] in multiset(es[1..]);
          var k :| 0 <= k < |es[1..]| && es[1..][k] == tail[j];
        }
      }
      SortedCons(es[0], tail);
    }
  }

  /** Inserting an entry with a new name keeps names distinct. */
  lemma {:induction false} InsertDistinct(e: PieEntry, es: seq<PieEntry>)
    requires DistinctNames(es) && e.PU_cleaned !in Names(es)
    ensures DistinctNames(Insert(e, es))
  {
    if es == [] || e.count >= es[0].count {
      DistinctCons(e, es);
    } else {
      var tail := Insert(e, es[1..]);
      assert es == [es[0]] + es[1..];
      NamesCons(es[0], es[1..]);
      DistinctCons(es[0], es[1..]);
      InsertDistinct(e, es[1..]);
      InsertNames(e, es[1..]);
      DistinctCons(es[0], tail);
    }
  }

  /** The sort is a permutation of its input. */
  lemma {:induction false} SortByCountPermutes(es: seq<PieEntry>)
    ensures multiset(SortByCount(es)) == multiset(es)
    ensures |SortByCount(es)| == |es|
  {
    if es != [] {
      SortByCountPermutes(es[1..]);
      InsertPermutes(es[0], SortByCount(es[1..]));
      assert es == [es[0]] + es[1..];
      assert |multiset(SortByCount(es))| == |SortByCount(es)|;
    }
  }

  /** The sort keeps the names and the total. */
  lemma {:induction false} SortByCountKeepsNamesAndTotal(es: seq<PieEntry>)
    ensures Names(SortByCount(es)) == Names(es)
    ensures Total(SortByCount(es)) == Total(es)
  {
    if es != [] {
      SortByCountKeepsNamesAndTotal(es[1..]);
      InsertNames(es[0], SortByCount(es[1..]));
      InsertTotal(es[0], SortByCount(es[1..]));
      assert es == [es[0]] + es[1..];
      NamesCons(es[0], es[1..]);
    }
  }

  /** The sort puts the largest counts first and keeps names distinct. */
  lemma {:induction false} SortByCountSorted(es: seq<PieEntry>)
    ensures SortedByCount(SortByCount(es))
    ensures DistinctNames(es) ==> DistinctNames(SortByCount(es))
  {
    if es != [] {
      SortByCountSorted(es[1..]);
      InsertSorted(es[0], SortByCount(es[1..]));
      if DistinctNames(es) {
        assert es == [es[0]] + es[1..];
        DistinctCons(es[0], es[1..]);
        SortByCountKeepsNamesAndTotal(es[1..]);
        InsertDistinct(es[0], SortByCount(es[1..]));
      }
    }
  }

  // ---- value_counts ----

  /** Every entry of `value_counts` counts exactly the cells holding its name, and at
      least one. */
  lemma ValueCountsCounts(xs: seq<Option<string>>)
    ensures var vc := ValueCounts(xs);
      forall i :: 0 <= i < |vc| ==> vc[i].count == Occurrences(xs, vc[i].PU_cleaned) && vc[i].count >= 1
  {
    var t := TallyFrom([], xs);
    var vc := ValueCounts(xs);
    TallyFromSpec([], xs);
    SortByCountPermutes(t);
    forall i | 0 <= i < |vc|
      ensures vc[i].count == Occurrences(xs, vc[i].PU_cleaned) && vc[i].count >= 1
    {
      assert vc[i] in multiset(t);
      var k :| 0 <= k < |t| && t[k] == vc[i];
      CountOfEntry(t, k);
    }
  }

  /** `value_counts` lists exactly the present names, each once, largest count first, and
      its counts add up to the number of present cells. */
  lemma ValueCountsShape(xs: seq<Option<string>>)
    ensures var vc := ValueCounts(xs);
      && (forall v :: Some(v) in xs <==> v in Names(vc))
      && DistinctNames(vc)
      && SortedByCount(vc)
      && Total(vc) == PresentCount(xs)
  {
    var t := TallyFrom([], xs);
    TallyFromSpec([], xs);
    SortByCountKeepsNamesAndTotal(t);
    SortByCountSorted(t);
  }

  /** What `value_counts(dropna=True, sort=True)` promises: every entry counts exactly the
      cells holding its name and is at least 1, every present name has an entry, no name
      has two, the largest counts come first, and the counts add up to the number of
      present cells. */
  lemma ValueCountsSpec(xs: seq<Option<string>>)
    ensures var vc := ValueCounts(xs);
      && (forall i :: 0 <= i < |vc| ==> vc[i].count == Occurrences(xs, vc[i].PU_cleaned) && vc[i].count >= 1)
      && (forall v :: Some(v) in xs <==> v in Names(vc))
      && DistinctNames(vc)
      && SortedByCount(vc)
      && Total(vc) == PresentCount(xs)
  {
    ValueCountsCounts(xs);
    ValueCountsShape(xs);
  }

  /** The pie's slices add up to the present cells, each counts at least one cell, and
      the largest come first. */
  lemma PieTotalAndOrder(xs: seq<Option<string>>)
    ensures var pie := Relabeled(ValueCounts(xs));
      && Total(pie) == PresentCount(xs)
      && SortedByCount(pie)
      && (forall i :: 0 <= i < |pie| ==> pie[i].count >= 1)
  {
    ValueCountsSpec(xs);
    RelabeledSpec(ValueCounts(xs));
  }

  /** A slice of three or more keeps its name and counts exactly that name's cells; all
      smaller slices are named "Other". */
  lemma PieSliceNames(xs: seq<Option<string>>)
    ensures var pie := Relabeled(ValueCounts(xs));
      && (forall i :: 0 <= i < |pie| && pie[i].count >= MIN_NAMED_COUNT ==>
            pie[i].count == Occurrences(xs, pie[i].PU_cleaned))
      && (forall i :: 0 <= i < |pie| && pie[i].count < MIN_NAMED_COUNT ==> pie[i].PU_cleaned == OTHER_LABEL)
  {
    var vc := ValueCounts(xs);
    ValueCountsSpec(xs);
    assert forall i :: 0 <= i < |vc| ==> Relabeled(vc)[i] == Relabel(vc[i]);
  }

  /** Every name with three or more cells has its own slice with that count. */
  lemma LargePublishersHaveSlices(xs: seq<Option<string>>, v: string)
    requires Occurrences(xs, v) >= MIN_NAMED_COUNT
    ensures var pie := Relabeled(ValueCounts(xs));
      exists i :: 0 <= i < |pie| && pie[i] == PieEntry(v, Occurrences(xs, v))
  {
    var vc := ValueCounts(xs);
    ValueCountsSpec(xs);
    assert Some(v) in multiset(xs);
    var i :| 0 <= i < |vc| && vc[i].PU_cleaned == v;
    assert Relabeled(vc)[i] == Relabel(vc[i]);
  }

  /** The pie drawn from a column of names, all of the above together. */
  lemma PieOfNames(xs: seq<Option<string>>)
    ensures var pie := Relabeled(ValueCounts(xs));
      && Total(pie) == PresentCount(xs)
      && SortedByCount(pie)
      && (forall i :: 0 <= i < |pie| ==> pie[i].count >= 1)
      && (forall i :: 0 <= i < |pie| && pie[i].count >= MIN_NAMED_COUNT ==>
            pie[i].count == Occurrences(xs, pie[i].PU_cleaned))
      && (forall i :: 0 <= i < |pie| && pie[i].count < MIN_NAMED_COUNT ==> pie[i].PU_cleaned == OTHER_LABEL)
      && (forall v :: Occurrences(xs, v) >= MIN_NAMED_COUNT ==>
            exists i :: 0 <= i < |pie| && pie[i] == PieEntry(v, Occurrences(xs, v)))
  {
    PieTotalAndOrder(xs);
    PieSliceNames(xs);
    forall v | Occurrences(xs, v) >= MIN_NAMED_COUNT
      ensures var pie := Relabeled(ValueCounts(xs));
        exists i :: 0 <= i < |pie| && pie[i] == PieEntry(v, Occurrences(xs, v))
    {
      LargePublishersHaveSlices(xs, v);
    }
  }

  /** Counting the selected rows' publisher names: the slices add up to the number of
      selected rows that have a name. */
  lemma {:induction false} PresentCountOfLabels(rows: seq<Joined>)
    ensures PresentCount(Labels(rows)) == |Filter(rows, HasPublisherName)|
  {
    if rows != [] {
      assert Labels(rows)[1..] == Labels(rows[1..]);
      PresentCountOfLabels(rows[1..]);
    }
  }

  // ---- the relabel ----

  lemma {:induction false} TotalOfSameCounts(a: seq<PieEntry>, b: seq<PieEntry>)
    requires |a| == |b|
    requires forall i :: 0 <= i < |a| ==> a[i].count == b[i].count
    ensures Total(a) == Total(b)
  {
    if a != [] {
      TotalOfSameCounts(a[1..], b[1..]);
    }
  }

  /** The relabel keeps the number of entries, every count, the total and the order; it
      names an entry "Other" exactly when its count is below 3 (or it already was
      "Other"), and changes exactly the entries with a count below 3 and another name. */
  lemma RelabeledSpec(es: seq<PieEntry>)
    ensures var r := Relabeled(es);
      && |r| == |es|
      && (forall i :: 0 <= i < |es| ==> r[i].count == es[i].count)
      && (forall i :: 0 <= i < |es| ==>
            r[i].PU_cleaned == (if es[i].count < MIN_NAMED_COUNT then OTHER_LABEL else es[i].PU_cleaned))
      && (forall i :: 0 <= i < |es| ==>
            (r[i] != es[i] <==> es[i].count < MIN_NAMED_COUNT && es[i].PU_cleaned != OTHER_LABEL))
      && Total(r) == Total(es)
      && (SortedByCount(es) ==> SortedByCount(r))
  {
    TotalOfSameCounts(Relabeled(es), es);
  }
}
