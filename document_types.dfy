/** The document-type partition. Book reviews are split off first, by exact equality
    with one of two DT values, because their type contains the word "Review". Of the
    remaining rows those whose DT contains "Article" or "Review" (ignoring case; a missing
    DT never matches) are kept; the rest, followed by the book reviews, form the table of
    removed rows. */
module DocumentTypes {
  import opened Wrappers
  import opened Text
  import opened Seqs
  import opened Records

  const BOOK_REVIEW_VARIANTS: seq<string> := ["Book Review", "Book Review; Early Access"]

  /** `df['DT'].isin(BOOK_REVIEW_VARIANTS)`: exact equality; a missing DT is never listed. */
  predicate IsBookReview(r: Record) {
    r.DT.Some? && r.DT.value in BOOK_REVIEW_VARIANTS
  }

  /** The two `str.contains(..., case=False, regex=False, na=False)` tests, or-ed. */
  predicate IsArticleOrReview(r: Record) {
    r.DT.Some? && (ContainsIgnoreCase(r.DT.value, "Article") || ContainsIgnoreCase(r.DT.value, "Review"))
  }

  /** The working table before de-duplication and the table of removed rows. */
  datatype Split = Split(kept: seq<Record>, removed: seq<Record>)

  function SplitDocumentTypes(df: seq<Record>): Split {
    var bookReviews := Filter(df, IsBookReview);
    var rest := FilterOut(df, IsBookReview);
    Split(Filter(rest, IsArticleOrReview), FilterOut(rest, IsArticleOrReview) + bookReviews)
  }

  /** The case-insensitive tests compare the upper-cased DT with the upper-cased markers. */
  lemma IsArticleOrReviewUpper(r: Record)
    ensures IsArticleOrReview(r) <==>
      r.DT.Some? && (Contains(Upper(r.DT.value), "ARTICLE") || Contains(Upper(r.DT.value), "REVIEW"))
  {
    assert Upper("Article") == "ARTICLE";
    assert Upper("Review") == "REVIEW";
  }

  /** The kept and removed tables split the input: no row is in both, and together they
      hold every input row exactly as often as the input does. */
  lemma SplitIsPartition(df: seq<Record>)
    ensures var s := SplitDocumentTypes(df);
      && |s.kept| + |s.removed| == |df|
      && multiset(s.kept) + multiset(s.removed) == multiset(df)
      && forall r :: r in s.kept ==> r !in s.removed
  {
    var rest := FilterOut(df, IsBookReview);
    var s := SplitDocumentTypes(df);
    FilterSplit(df, IsBookReview);
    FilterSplit(rest, IsArticleOrReview);
    assert s.removed == FilterOut(rest, IsArticleOrReview) + Filter(df, IsBookReview);
    SplitDisjoint(df);
  }

  lemma SplitDisjoint(df: seq<Record>)
    ensures forall r :: r in SplitDocumentTypes(df).kept ==> r !in SplitDocumentTypes(df).removed
  {
    var rest := FilterOut(df, IsBookReview);
    FilterMembers(df, IsBookReview);
    FilterMembers(rest, IsArticleOrReview);
  }

  /** Which rows end up where. A row is kept exactly when it is no book review and its DT
      names an article or a review; it is removed exactly when it is a book review, or its
      DT is missing or names neither. */
  lemma SplitMembership(df: seq<Record>, r: Record)
    requires r in df
    ensures var s := SplitDocumentTypes(df);
      && (r in s.kept <==> !IsBookReview(r) && IsArticleOrReview(r))
      && (r in s.removed <==> IsBookReview(r) || !IsArticleOrReview(r))
  {
    var rest := FilterOut(df, IsBookReview);
    FilterMembers(df, IsBookReview);
    FilterMembers(rest, IsArticleOrReview);
  }

  /** A DT of exactly "Book Review" or "Book Review; Early Access" always lands in the
      removed table and never in the kept one, although it contains "Review". */
  lemma BookReviewsAreRemoved(df: seq<Record>, r: Record)
    requires r in df && r.DT.Some?
    requires r.DT.value == "Book Review" || r.DT.value == "Book Review; Early Access"
    ensures r in SplitDocumentTypes(df).removed && r !in SplitDocumentTypes(df).kept
  {
    SplitMembership(df, r);
  }

  /** Only the two listed variants are caught: "Book Review" followed by any other tags
      is kept, because its type still contains "Review". */
  lemma OtherBookReviewTagsAreKept(df: seq<Record>, r: Record, tags: string)
    requires r in df && r.DT == Some("Book Review" + tags)
    requires tags != [] && tags != "; Early Access"
    ensures r in SplitDocumentTypes(df).kept
  {
    BookReviewWithTagsNotListed(tags);
    BookReviewWithTagsMentionsReview(tags);
    SplitMembership(df, r);
  }

  lemma BookReviewWithTagsNotListed(tags: string)
    requires tags != [] && tags != "; Early Access"
    ensures "Book Review" + tags !in BOOK_REVIEW_VARIANTS
  {
    var dt := "Book Review" + tags;
    assert dt != "Book Review" by {
      assert |dt| > |"Book Review"|;
    }
    assert dt != "Book Review; Early Access" by {
      assert dt[11..] == tags;
      assert "Book Review; Early Access"[11..] == "; Early Access";
    }
  }

  lemma BookReviewWithTagsMentionsReview(tags: string)
    ensures ContainsIgnoreCase("Book Review" + tags, "Review")
  {
    var dt := "Book Review" + tags;
    assert dt[5..11] == "Review";
    assert OccursAt(dt, "Review", 5);
    ContainsIffOccurs(dt, "Review");
    ContainsImpliesContainsIgnoreCase(dt, "Review");
  }

  /** The removed table lists the rows that are neither article nor review first and the
      book reviews after them, each part in input order. */
  lemma RemovedOrder(df: seq<Record>)
    ensures var removed := SplitDocumentTypes(df).removed;
      var k := |removed| - |Filter(df, IsBookReview)|;
      && 0 <= k
      && (forall i :: 0 <= i < k ==> !IsBookReview(removed[i]) && !IsArticleOrReview(removed[i]))
      && (forall i :: k <= i < |removed| ==> IsBookReview(removed[i]))
      && IsSubsequence(removed[..k], df)
      && IsSubsequence(removed[k..], df)
  {
    var rest := FilterOut(df, IsBookReview);
    var a, b := FilterOut(rest, IsArticleOrReview), Filter(df, IsBookReview);
    var removed := SplitDocumentTypes(df).removed;
    assert removed == a + b;
    assert removed[..|a|] == a;
    assert removed[|a|..] == b;
    FilterMembers(df, IsBookReview);
    FilterMembers(rest, IsArticleOrReview);
    forall i | 0 <= i < |a|
      ensures !IsBookReview(removed[i]) && !IsArticleOrReview(removed[i])
    {
      assert removed[i] == a[i] && a[i] in a;
    }
    forall i | |a| <= i < |removed|
      ensures IsBookReview(removed[i])
    {
      assert removed[i] == b[i - |a|] && b[i - |a|] in b;
    }
    FilterIsSubsequence(df, IsBookReview);
    FilterIsSubsequence(rest, IsArticleOrReview);
    SubsequenceTransitive(a, rest, df);
  }

  /** Every kept row has a DT, and that DT upper-cased contains "ARTICLE" or "REVIEW";
      none of them is one of the two book-review variants. */
  lemma KeptRowsAreArticlesOrReviews(df: seq<Record>)
    ensures forall r :: r in SplitDocumentTypes(df).kept ==>
      && !IsBookReview(r)
      && r.DT.Some?
      && (Contains(Upper(r.DT.value), "ARTICLE") || Contains(Upper(r.DT.value), "REVIEW"))
  {
    var rest := FilterOut(df, IsBookReview);
    FilterMembers(df, IsBookReview);
    FilterMembers(rest, IsArticleOrReview);
    forall r | r in SplitDocumentTypes(df).kept
      ensures r.DT.Some? && (Contains(Upper(r.DT.value), "ARTICLE") || Contains(Upper(r.DT.value), "REVIEW"))
    {
      IsArticleOrReviewUpper(r);
    }
  }

  /** The kept table keeps the input order. */
  lemma KeptIsSubsequence(df: seq<Record>)
    ensures IsSubsequence(SplitDocumentTypes(df).kept, df)
  {
    var rest := FilterOut(df, IsBookReview);
    FilterIsSubsequence(df, IsBookReview);
    FilterIsSubsequence(rest, IsArticleOrReview);
    SubsequenceTransitive(Filter(rest, IsArticleOrReview), rest, df);
  }
}
