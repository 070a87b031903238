/** Title de-duplication, `drop_duplicates(subset=['TI'], keep='first')`: an early-access
    version and the final version of a paper share a title and only the first row seen is
    kept. A missing title is a key like any other, so all rows without a title form one
    group and only the first of them survives. */
module Dedup {
  import opened Wrappers
  import opened Seqs
  import opened Records

  /** The set of title keys of a table (a missing title is the key `None`). */
  function Titles(df: seq<Record>): set<Option<string>> {
    set r | r in df :: r.TI
  }

  /** The left-to-right scan: a row is dropped when its title is already in `seen`. */
  function DropSeenTitles(df: seq<Record>, seen: set<Option<string>>): seq<Record>
    decreases |df|
  {
    if df == [] then []
    else if df[0].TI in seen then DropSeenTitles(df[1..], seen)
    else [df[0]] + DropSeenTitles(df[1..], seen + {df[0].TI})
  }

  function DropDuplicateTitles(df: seq<Record>): seq<Record> {
    DropSeenTitles(df, {})
  }

  /** Row `i` is the first row of `df` with its title. */
  predicate IsFirstOfTitle(df: seq<Record>, i: int)
    requires 0 <= i < |df|
  {
    forall j :: 0 <= j < i ==> df[j].TI != df[i].TI
  }

  /** `r` is the first row of `df` with its title. */
  ghost predicate IsFirstRow(df: seq<Record>, r: Record) {
    exists i :: 0 <= i < |df| && IsFirstOfTitle(df, i) && r == df[i]
  }

  /** Reference definition: the rows that are first of their title, built by looking at
      the last row of the table and everything before it. */
  function FirstOccurrences(df: seq<Record>): seq<Record>
    decreases |df|
  {
    if df == [] then []
    else
      var init, last := df[..|df| - 1], df[|df| - 1];
      FirstOccurrences(init) + (if last.TI in Titles(init) then [] else [last])
  }

  predicate DistinctTitles(df: seq<Record>) {
    forall i, j :: 0 <= i < j < |df| ==> df[i].TI != df[j].TI
  }

  lemma TitlesAppend(a: seq<Record>, b: seq<Record>)
    ensures Titles(a + b) == Titles(a) + Titles(b)
  {
    forall t | t in Titles(a + b)
      ensures t in Titles(a) + Titles(b)
    {
      var r :| r in a + b && r.TI == t;
    }
    forall t | t in Titles(a) + Titles(b)
      ensures t in Titles(a + b)
    {
      if t in Titles(a) {
        var r :| r in a && r.TI == t;
        assert r in a + b;
      } else {
        var r :| r in b && r.TI == t;
        assert r in a + b;
      }
    }
  }

  /** Scanning one more row at the end adds it exactly when its title was neither seen
      before the scan nor in the rows already scanned. */
  lemma {:induction false} DropSeenTitlesSnoc(a: seq<Record>, x: Record, seen: set<Option<string>>)
    ensures DropSeenTitles(a + [x], seen)
         == DropSeenTitles(a, seen) + (if x.TI in seen + Titles(a) then [] else [x])
    decreases |a|
  {
    if a == [] {
      assert a + [x] == [x];
      assert Titles(a) == {};
    } else {
      assert (a + [x])[0] == a[0];
      assert (a + [x])[1..] == a[1..] + [x];
      TitlesAppend([a[0]], a[1..]);
      assert a == [a[0]] + a[1..];
      if a[0].TI in seen {
        DropSeenTitlesSnoc(a[1..], x, seen);
      } else {
        DropSeenTitlesSnoc(a[1..], x, seen + {a[0].TI});
      }
    }
  }

  /** The scan keeps exactly the first row of every title. */
  lemma {:induction false} DropDuplicateTitlesIsFirstOccurrences(df: seq<Record>)
    ensures DropDuplicateTitles(df) == FirstOccurrences(df)
    decreases |df|
  {
    if df != [] {
      var init, last := df[..|df| - 1], df[|df| - 1];
      assert df == init + [last];
      DropSeenTitlesSnoc(init, last, {});
      DropDuplicateTitlesIsFirstOccurrences(init);
    }
  }

  /** The scan only deletes rows: the rest keep their relative order. */
  lemma {:induction false} DropSeenTitlesIsSubsequence(df: seq<Record>, seen: set<Option<string>>)
    ensures IsSubsequence(DropSeenTitles(df, seen), df)
    decreases |df|
  {
    if df != [] {
      if df[0].TI in seen {
        DropSeenTitlesIsSubsequence(df[1..], seen);
      } else {
        DropSeenTitlesIsSubsequence(df[1..], seen + {df[0].TI});
        assert DropSeenTitles(df, seen)[1..] == DropSeenTitles(df[1..], seen + {df[0].TI});
      }
    }
  }

  /** The first occurrences have distinct titles and the input's set of titles. */
  lemma {:induction false} FirstOccurrencesTitles(df: seq<Record>)
    ensures DistinctTitles(FirstOccurrences(df))
    ensures Titles(FirstOccurrences(df)) == Titles(df)
    decreases |df|
  {
    if df != [] {
      var init, last := df[..|df| - 1], df[|df| - 1];
      assert df == init + [last];
      FirstOccurrencesTitles(init);
      var prev := FirstOccurrences(init);
      var tail := if last.TI in Titles(init) then [] else [last];
      var out := prev + tail;
      TitlesAppend(init, [last]);
      TitlesAppend(prev, tail);
      forall i, j | 0 <= i < j < |out|
        ensures out[i].TI != out[j].TI
      {
        if j >= |prev| {
          assert out[i] in prev;
        }
      }
    }
  }

  /** Each survivor is the first row of the input with its title. */
  lemma {:induction false} FirstOccurrencesAreFirst(df: seq<Record>)
    ensures forall k :: 0 <= k < |FirstOccurrences(df)| ==> IsFirstRow(df, FirstOccurrences(df)[k])
    decreases |df|
  {
    if df != [] {
      var init, last := df[..|df| - 1], df[|df| - 1];
      FirstOccurrencesAreFirst(init);
      var prev := FirstOccurrences(init);
      var out := FirstOccurrences(df);
      assert out == prev + (if last.TI in Titles(init) then [] else [last]);
      forall k | 0 <= k < |out|
        ensures IsFirstRow(df, out[k])
      {
        if k < |prev| {
          assert out[k] == prev[k];
          var i :| 0 <= i < |init| && IsFirstOfTitle(init, i) && prev[k] == init[i];
          FirstInPrefixIsFirst(df, i);
          assert df[i] == init[i];
        } else {
          assert out[k] == last && last.TI !in Titles(init);
          NewLastIsFirst(df);
        }
      }
    }
  }

  lemma FirstInPrefixIsFirst(df: seq<Record>, i: int)
    requires 0 <= i < |df| - 1 && IsFirstOfTitle(df[..|df| - 1], i)
    ensures IsFirstOfTitle(df, i)
  {
    forall j | 0 <= j < i
      ensures df[j].TI != df[i].TI
    {
      assert df[..|df| - 1][j] == df[j] && df[..|df| - 1][i] == df[i];
    }
  }

  lemma NewLastIsFirst(df: seq<Record>)
    requires df != [] && df[|df| - 1].TI !in Titles(df[..|df| - 1])
    ensures IsFirstOfTitle(df, |df| - 1)
  {
    var init := df[..|df| - 1];
    forall j | 0 <= j < |df| - 1
      ensures df[j].TI != df[|df| - 1].TI
    {
      assert df[j] == init[j] && init[j] in init;
    }
  }

  /** Every row that is the first of its title survives. */
  lemma {:induction false} FirstOccurrencesKeepFirsts(df: seq<Record>)
    ensures forall i :: 0 <= i < |df| && IsFirstOfTitle(df, i) ==> df[i] in FirstOccurrences(df)
    decreases |df|
  {
    if df != [] {
      var init, last := df[..|df| - 1], df[|df| - 1];
      FirstOccurrencesKeepFirsts(init);
      forall i | 0 <= i < |df| && IsFirstOfTitle(df, i)
        ensures df[i] in FirstOccurrences(df)
      {
        if i < |init| {
          assert IsFirstOfTitle(init, i);
        } else {
          LastIsNewTitle(df);
        }
      }
    }
  }

  /** A table whose titles are already distinct is left as it is. */
  lemma {:induction false} FirstOccurrencesOfDistinct(df: seq<Record>)
    requires DistinctTitles(df)
    ensures FirstOccurrences(df) == df
    decreases |df|
  {
    if df != [] {
      var init, last := df[..|df| - 1], df[|df| - 1];
      assert df == init + [last];
      FirstOccurrencesOfDistinct(init);
    }
  }

  /** Rows with distinct titles are as many as their titles. */
  lemma {:induction false} DistinctTitlesCount(df: seq<Record>)
    requires DistinctTitles(df)
    ensures |Titles(df)| == |df|
    decreases |df|
  {
    if df != [] {
      var init, last := df[..|df| - 1], df[|df| - 1];
      DistinctTitlesPrefix(df);
      DistinctTitlesCount(init);
      TitlesSnoc(init, last);
      assert df == init + [last];
      LastTitleNotBefore(df);
    }
  }

  /** In a table with distinct titles the last row's title is not among the earlier ones. */
  lemma LastTitleNotBefore(df: seq<Record>)
    requires df != [] && DistinctTitles(df)
    ensures df[|df| - 1].TI !in Titles(df[..|df| - 1])
  {
    var init := df[..|df| - 1];
    forall r | r in init
      ensures r.TI != df[|df| - 1].TI
    {
      var j :| 0 <= j < |init| && init[j] == r;
      assert df[j] == r;
    }
  }

  /** The last row is the first of its title exactly when its title is new. */
  lemma LastIsNewTitle(df: seq<Record>)
    requires df != [] && IsFirstOfTitle(df, |df| - 1)
    ensures df[|df| - 1].TI !in Titles(df[..|df| - 1])
  {
    var init := df[..|df| - 1];
    forall r | r in init
      ensures r.TI != df[|df| - 1].TI
    {
      var j :| 0 <= j < |init| && init[j] == r;
      assert df[j] == r;
    }
  }

  lemma DistinctTitlesPrefix(df: seq<Record>)
    requires df != [] && DistinctTitles(df)
    ensures DistinctTitles(df[..|df| - 1])
  {
    var init := df[..|df| - 1];
    forall i, j | 0 <= i < j < |init|
      ensures init[i].TI != init[j].TI
    {
      assert init[i] == df[i] && init[j] == df[j];
    }
  }

  lemma TitlesSnoc(init: seq<Record>, last: Record)
    ensures Titles(init + [last]) == Titles(init) + {last.TI}
  {
    TitlesAppend(init, [last]);
    assert Titles([last]) == {last.TI};
  }

  /** What `drop_duplicates` on TI guarantees: no two rows share a title (all missing
      titles counting as one), the set of titles is the input's, there is one row per
      title, each row is the first of its title in the input, rows keep their order, and
      de-duplicating again changes nothing. */
  lemma DropDuplicateTitlesSpec(df: seq<Record>)
    ensures var out := DropDuplicateTitles(df);
      && DistinctTitles(out)
      && Titles(out) == Titles(df)
      && |out| == |Titles(df)|
      && (forall k :: 0 <= k < |out| ==> IsFirstRow(df, out[k]))
      && (forall i :: 0 <= i < |df| && IsFirstOfTitle(df, i) ==> df[i] in out)
      && IsSubsequence(out, df)
      && DropDuplicateTitles(out) == out
  {
    var out := DropDuplicateTitles(df);
    DropDuplicateTitlesIsFirstOccurrences(df);
    FirstOccurrencesTitles(df);
    FirstOccurrencesAreFirst(df);
    FirstOccurrencesKeepFirsts(df);
    DistinctTitlesCount(out);
    DropSeenTitlesIsSubsequence(df, {});
    DropDuplicateTitlesIsFirstOccurrences(out);
    FirstOccurrencesOfDistinct(out);
  }
}
