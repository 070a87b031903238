/** The profiler's record-cleaning pipeline, start to end: lower-case the DOIs, split off
    the unwanted document types, drop repeated titles, flag the corresponding-author rows,
    build the sidebar's selection mask, merge in the cleaned publisher names, select the
    rows with the mask and count them per publisher for the pie chart. The loaded export
    and the publisher lookup table are parameters; the radio-button answer is too. */
module Profiler {
  import opened Wrappers
  import opened Text
  import opened Seqs
  import opened Records
  import opened Doi
  import opened DocumentTypes
  import opened Dedup
  import opened CorrespondingAuthor
  import opened PublisherJoin
  import opened PieCounts

  /** What the page shows. */
  datatype Report = Report(
    totalLoaded: nat,            // line 62, "Raw Data loaded"
    removed: seq<Record>,        // df_removed, its size in the checkbox label at line 102
    removedShown: int,           // the "Remove ... records" number at line 101
    kept: seq<Flagged>,          // df after de-duplication, with the ISU_CA column
    selectedCount: nat,          // the sidebar's "rows out of" number at line 137
    selected: seq<Joined>,       // df[filt] after the merge, the rows every chart draws
    pie: seq<PieEntry>)          // the pie chart's table after the relabel

  /** The working table after the document-type filter and title de-duplication. */
  function KeptTable(raw: seq<Record>): seq<Record> {
    DropDuplicateTitles(SplitDocumentTypes(LowerDois(raw)).kept)
  }

  function Pipeline(raw: seq<Record>, lookup: seq<LookupRow>, choice: CaChoice): Result<Report, MaskError> {
    var split := SplitDocumentTypes(LowerDois(raw));
    var kept := KeptTable(raw);
    var flagged := WithCaColumn(kept);
    var filt := CaMask(flagged, choice);
    match SelectRows(RightMerge(lookup, flagged), filt)
    case Failure(e) => Failure(e)
    case Success(selected) =>
      Success(Report(|raw|, split.removed, |raw| - |kept|, flagged, |MaskedRows(flagged, filt)|,
                     selected, Relabeled(ValueCounts(Labels(selected)))))
  }

  /** The script, step by step: the DOI column and the pie's name column are written in
      place, the table variable is reassigned after every step. */
  method RunProfiler(raw: seq<Record>, lookup: seq<LookupRow>, choice: CaChoice)
    returns (r: Result<Report, MaskError>)
    ensures r == Pipeline(raw, lookup, choice)
  {
    var table := new Record[|raw|](i requires 0 <= i < |raw| => raw[i]);
    assert table[..] == raw;
    var totalLoaded := table.Length;
    LowerDoiColumn(table);
    var df := table[..];
    var bookReviewRemoved := Filter(df, IsBookReview);
    df := FilterOut(df, IsBookReview);
    var removed := FilterOut(df, IsArticleOrReview) + bookReviewRemoved;
    df := Filter(df, IsArticleOrReview);
    df := DropDuplicateTitles(df);
    var removedShown := totalLoaded - |df|;
    var flagged := WithCaColumn(df);
    var filt := CaMask(flagged, choice);
    var selectedCount := |MaskedRows(flagged, filt)|;
    var joined := RightMerge(lookup, flagged);
    var selection := SelectRows(joined, filt);
    if selection.Failure? {
      return Failure(selection.error);
    }
    var counts := ValueCounts(Labels(selection.value));
    var pie := new PieEntry[|counts|](i requires 0 <= i < |counts| => counts[i]);
    assert pie[..] == counts;
    RelabelSmallSlices(pie);
    r := Success(Report(totalLoaded, removed, removedShown, flagged, selectedCount, selection.value, pie[..]));
  }

  /** The publisher columns of the merged rows. */
  function RowsOf(js: seq<Joined>): seq<Flagged> {
    seq(|js|, i requires 0 <= i < |js| => js[i].row)
  }

  lemma {:induction false} RowsOfMasked(js: seq<Joined>, mask: seq<bool>)
    requires |js| <= |mask|
    ensures RowsOf(MaskedRows(js, mask)) == MaskedRows(RowsOf(js), mask)
  {
    if js != [] {
      assert RowsOf(js)[1..] == RowsOf(js[1..]);
      RowsOfMasked(js[1..], mask[1..]);
      assert RowsOf(MaskedRows(js, mask)) ==
        RowsOf(if mask[0] then [js[0]] else []) + RowsOf(MaskedRows(js[1..], mask[1..]));
    }
  }

  /** Selecting with the mask fails exactly when the merge added rows. */
  lemma PipelineFailsOnlyOnLongerMerge(raw: seq<Record>, lookup: seq<LookupRow>, choice: CaChoice)
    ensures var flagged := WithCaColumn(KeptTable(raw));
      Pipeline(raw, lookup, choice).Success? <==> |RightMerge(lookup, flagged)| <= |flagged|
  {
  }

  /** The merge adds no row exactly when no row's publisher code is listed twice. */
  lemma MergeAddsNoRow(lookup: seq<LookupRow>, kept: seq<Record>)
    ensures var flagged := WithCaColumn(kept);
      |RightMerge(lookup, flagged)| <= |flagged| <==>
        forall r :: r in kept ==> |MatchingNames(lookup, r.PU)| <= 1
  {
    var flagged := WithCaColumn(kept);
    WithCaColumnSpec(kept);
    RightMergeLength(lookup, flagged);
    if forall r :: r in kept ==> |MatchingNames(lookup, r.PU)| <= 1 {
      assert forall i :: 0 <= i < |flagged| ==> flagged[i].rec in kept;
    } else {
      var r :| r in kept && |MatchingNames(lookup, r.PU)| > 1;
      var i :| 0 <= i < |kept| && kept[i] == r;
      assert flagged[i].rec == r;
    }
  }

  /** The page renders its charts exactly when no kept row's publisher code is listed twice
      in the lookup table; otherwise the merged table is longer than the selection mask
      and selecting with it fails. With unique codes it always renders. */
  lemma PipelineSucceeds(raw: seq<Record>, lookup: seq<LookupRow>, choice: CaChoice)
    ensures Pipeline(raw, lookup, choice).Success? <==>
      forall r :: r in KeptTable(raw) ==> |MatchingNames(lookup, r.PU)| <= 1
    ensures UniqueKeys(lookup) ==> Pipeline(raw, lookup, choice).Success?
  {
    PipelineFailsOnlyOnLongerMerge(raw, lookup, choice);
    MergeAddsNoRow(lookup, KeptTable(raw));
    forall pu: Option<string> | UniqueKeys(lookup)
      ensures |MatchingNames(lookup, pu)| <= 1
    {
      MatchingNamesSpec(lookup, pu);
    }
  }

  /** The two removal numbers on the page: the "Remove" figure (loaded minus kept after
      de-duplication) is the size of the removed table plus the rows lost to
      de-duplication, that is the kept rows beyond one per distinct title. */
  lemma RemovedCountShown(raw: seq<Record>, lookup: seq<LookupRow>, choice: CaChoice)
    ensures Pipeline(raw, lookup, choice).Success? ==>
      var rep := Pipeline(raw, lookup, choice).value;
      var beforeDedup := SplitDocumentTypes(LowerDois(raw)).kept;
      && rep.removedShown == |rep.removed| + (|beforeDedup| - |Titles(beforeDedup)|)
      && rep.removedShown >= |rep.removed|
      && rep.totalLoaded == |raw|
  {
    var df := LowerDois(raw);
    LowerDoisSpec(raw);
    SplitIsPartition(df);
    DropDuplicateTitlesSpec(SplitDocumentTypes(df).kept);
    DedupCountBound(SplitDocumentTypes(df).kept);
  }

  /** No more titles than rows. */
  lemma {:induction false} DedupCountBound(df: seq<Record>)
    ensures |Titles(df)| <= |df|
  {
    DropDuplicateTitlesSpec(df);
    DropSeenTitlesIsSubsequence(df, {});
    SubsequenceLength(DropDuplicateTitles(df), df);
  }

  /** The table after the cleaning: no two rows share a title, the rows keep their loaded
      order, and every row is an article or review that is no book review and carries a
      DOI without upper-case letters. */
  lemma KeptRows(raw: seq<Record>)
    ensures var kept := KeptTable(raw);
      && DistinctTitles(kept)
      && IsSubsequence(kept, LowerDois(raw))
      && forall r :: r in kept ==>
           && !IsBookReview(r)
           && r.DT.Some?
           && (Contains(Upper(r.DT.value), "ARTICLE") || Contains(Upper(r.DT.value), "REVIEW"))
           && (r.DI.Some? ==> NoUpperCase(r.DI.value))
  {
    var df := LowerDois(raw);
    var split := SplitDocumentTypes(df);
    var kept := KeptTable(raw);
    LowerDoisSpec(raw);
    KeptRowsAreArticlesOrReviews(df);
    KeptIsSubsequence(df);
    DropDuplicateTitlesSpec(split.kept);
    SubsequenceTransitive(kept, split.kept, df);
    forall r | r in kept
      ensures r in split.kept
    {
      SubsequenceMembers(kept, split.kept, r);
    }
    forall r | r in kept
      ensures r.DI.Some? ==> NoUpperCase(r.DI.value)
    {
      SubsequenceMembers(kept, df, r);
      var i :| 0 <= i < |df| && df[i] == r;
    }
  }

  /** With unique publisher codes the charted rows are the kept rows the sidebar selects,
      in order: the flagged ones for "Yes", all for "No"; their number is the one the
      sidebar shows. */
  lemma SelectedRows(raw: seq<Record>, lookup: seq<LookupRow>, choice: CaChoice)
    requires UniqueKeys(lookup)
    ensures Pipeline(raw, lookup, choice).Success?
    ensures var rep := Pipeline(raw, lookup, choice).value;
      && RowsOf(rep.selected) == (if choice == Yes then Filter(rep.kept, IsFlagged) else rep.kept)
      && |rep.selected| == rep.selectedCount
  {
    PipelineSucceeds(raw, lookup, choice);
    var flagged := WithCaColumn(KeptTable(raw));
    var filt := CaMask(flagged, choice);
    var joined := RightMerge(lookup, flagged);
    RightMergeUnique(lookup, flagged);
    assert RowsOf(joined) == flagged;
    RowsOfMasked(joined, filt);
    SelectedOnFlaggedTable(flagged, choice);
  }

  /** The pie: its slices add up to the charted rows that have a publisher name; every
      slice counts at least one row and the largest come first; a slice of three or more
      keeps its publisher's name and counts exactly that publisher's charted rows, and
      every publisher with three or more charted rows has such a slice; all smaller slices
      are named "Other". */
  lemma PieSlices(raw: seq<Record>, lookup: seq<LookupRow>, choice: CaChoice)
    ensures Pipeline(raw, lookup, choice).Success? ==>
      var rep := Pipeline(raw, lookup, choice).value;
      var names := Labels(rep.selected);
      && Total(rep.pie) == |Filter(rep.selected, HasPublisherName)|
      && SortedByCount(rep.pie)
      && (forall i :: 0 <= i < |rep.pie| ==> rep.pie[i].count >= 1)
      && (forall i :: 0 <= i < |rep.pie| && rep.pie[i].count >= MIN_NAMED_COUNT ==>
            rep.pie[i].count == Occurrences(names, rep.pie[i].PU_cleaned))
      && (forall i :: 0 <= i < |rep.pie| && rep.pie[i].count < MIN_NAMED_COUNT ==>
            rep.pie[i].PU_cleaned == OTHER_LABEL)
      && (forall v :: Occurrences(names, v) >= MIN_NAMED_COUNT ==>
            exists i :: 0 <= i < |rep.pie| && rep.pie[i] == PieEntry(v, Occurrences(names, v)))
  {
    if Pipeline(raw, lookup, choice).Success? {
      var rep := Pipeline(raw, lookup, choice).value;
      PieOfNames(Labels(rep.selected));
      PresentCountOfLabels(rep.selected);
    }
  }
}
