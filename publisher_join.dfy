/** The publisher merge, `pd.merge(lookup, df, on='PU', how='right')`: every row of the
    working table is kept, in order, and gains `PU_cleaned`, the display name the lookup
    table gives its publisher code. A row whose code the table lacks, or whose code is
    missing, gets a missing `PU_cleaned`. A code listed several times in the lookup table
    yields one output row per listing (lookup order), which is why the rest of the
    profiler needs the codes to be unique. */
module PublisherJoin {
  import opened Wrappers
  import opened Records

  /** One row of the publisher lookup table. */
  datatype LookupRow = LookupRow(PU: string, PU_cleaned: string)

  /** The display names listed for a code, in lookup order; a missing code matches nothing. */
  function MatchingNames(lookup: seq<LookupRow>, pu: Option<string>): seq<string> {
    if lookup == [] then []
    else (if pu == Some(lookup[0].PU) then [lookup[0].PU_cleaned] else []) + MatchingNames(lookup[1..], pu)
  }

  /** The output rows the merge produces for one row of the working table. */
  function MergeRow(lookup: seq<LookupRow>, f: Flagged): seq<Joined> {
    var names := MatchingNames(lookup, f.rec.PU);
    if names == [] then [Joined(None, f)]
    else seq(|names|, k requires 0 <= k < |names| => Joined(Some(names[k]), f))
  }

  function RightMerge(lookup: seq<LookupRow>, df: seq<Flagged>): seq<Joined> {
    if df == [] then [] else MergeRow(lookup, df[0]) + RightMerge(lookup, df[1..])
  }

  /** No publisher code is listed twice. */
  predicate UniqueKeys(lookup: seq<LookupRow>) {
    forall i, j :: 0 <= i < j < |lookup| ==> lookup[i].PU != lookup[j].PU
  }

  /** A name is listed for a code exactly when the lookup table has that row; with unique
      codes at most one name is listed. */
  lemma {:induction false} MatchingNamesSpec(lookup: seq<LookupRow>, pu: Option<string>)
    ensures forall c :: c in MatchingNames(lookup, pu) <==> pu.Some? && LookupRow(pu.value, c) in lookup
    ensures UniqueKeys(lookup) ==> |MatchingNames(lookup, pu)| <= 1
  {
    if lookup != [] {
      MatchingNamesSpec(lookup[1..], pu);
      assert lookup == [lookup[0]] + lookup[1..];
      if UniqueKeys(lookup) {
        assert UniqueKeys(lookup[1..]) by {
          forall i, j | 0 <= i < j < |lookup[1..]|
            ensures lookup[1..][i].PU != lookup[1..][j].PU
          {
            assert lookup[1..][i] == lookup[i + 1] && lookup[1..][j] == lookup[j + 1];
          }
        }
        if pu == Some(lookup[0].PU) {
          forall j | 0 <= j < |lookup[1..]|
            ensures lookup[1..][j].PU != pu.value
          {
            assert lookup[1..][j] == lookup[j + 1];
          }
          NoListingNoNames(lookup[1..], pu.value);
        }
      }
    }
  }

  /** A code that no lookup row lists has no names. */
  lemma {:induction false} NoListingNoNames(lookup: seq<LookupRow>, pu: string)
    requires forall j :: 0 <= j < |lookup| ==> lookup[j].PU != pu
    ensures MatchingNames(lookup, Some(pu)) == []
  {
    if lookup != [] {
      NoListingNoNames(lookup[1..], pu);
    }
  }

  /** In general the merge keeps every row, possibly several times: the output has at
      least as many rows, and exactly as many when no row's code is listed twice. */
  lemma {:induction false} RightMergeLength(lookup: seq<LookupRow>, df: seq<Flagged>)
    ensures |RightMerge(lookup, df)| >= |df|
    ensures |RightMerge(lookup, df)| == |df| <==>
      forall i :: 0 <= i < |df| ==> |MatchingNames(lookup, df[i].rec.PU)| <= 1
  {
    if df != [] {
      RightMergeLength(lookup, df[1..]);
      if |RightMerge(lookup, df)| == |df| {
        forall i | 0 <= i < |df|
          ensures |MatchingNames(lookup, df[i].rec.PU)| <= 1
        {
          if i > 0 {
            assert df[i] == df[1..][i - 1];
          }
        }
      }
    }
  }

  /** With unique codes the merge is a column lookup: one output row per input row, in
      order, with every original field unchanged, and `PU_cleaned` is the listed name of
      the row's code, or missing when the code is missing or not listed. */
  lemma {:induction false} RightMergeUnique(lookup: seq<LookupRow>, df: seq<Flagged>)
    requires UniqueKeys(lookup)
    ensures |RightMerge(lookup, df)| == |df|
    ensures forall i :: 0 <= i < |df| ==> RightMerge(lookup, df)[i].row == df[i]
    ensures forall i, c :: 0 <= i < |df| ==>
      (RightMerge(lookup, df)[i].PU_cleaned == Some(c) <==>
         df[i].rec.PU.Some? && LookupRow(df[i].rec.PU.value, c) in lookup)
    ensures forall i :: 0 <= i < |df| ==>
      (RightMerge(lookup, df)[i].PU_cleaned.None? <==>
         df[i].rec.PU.None? || forall c :: LookupRow(df[i].rec.PU.value, c) !in lookup)
  {
    if df != [] {
      RightMergeUnique(lookup, df[1..]);
      MatchingNamesSpec(lookup, df[0].rec.PU);
      var out := RightMerge(lookup, df);
      assert |MergeRow(lookup, df[0])| == 1;
      assert out == MergeRow(lookup, df[0]) + RightMerge(lookup, df[1..]);
      forall i | 0 <= i < |df|
        ensures out[i].row == df[i]
        ensures forall c :: out[i].PU_cleaned == Some(c) <==>
          df[i].rec.PU.Some? && LookupRow(df[i].rec.PU.value, c) in lookup
      {
        if i > 0 {
          assert out[i] == RightMerge(lookup, df[1..])[i - 1];
          assert df[i] == df[1..][i - 1];
        }
      }
    }
  }
}
