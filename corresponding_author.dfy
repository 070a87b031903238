/** The corresponding-author flag and the sidebar selection that uses it. A row is an
    Iowa State corresponding-author row when its reprint address (RP) contains, ignoring
    case, one of four markers; a missing address never matches. The sidebar's "Yes"
    selects the flagged rows, "No" selects every row. The selection is a Boolean mask
    built on the table as it is before the publisher merge and applied, by row label,
    to later tables. */
module CorrespondingAuthor {
  import opened Wrappers
  import opened Text
  import opened Seqs
  import opened Records

  const UPPER_MARKERS: seq<string> := ["IOWA STATE UNIV", "AMES LAB", "AMES, IA", "USDA"]

  /** The four `str.contains(..., case=False, regex=False, na=False)` tests on RP, or-ed. */
  predicate IsIsuCorrespondingAuthor(rp: Option<string>) {
    && rp.Some?
    && (|| ContainsIgnoreCase(rp.value, "Iowa State Univ")
        || ContainsIgnoreCase(rp.value, "Ames Lab")
        || ContainsIgnoreCase(rp.value, "Ames, IA")
        || ContainsIgnoreCase(rp.value, "USDA"))
  }

  /** `df['ISU_CA'] = CA_column_filt`: every row gains the flag computed from its RP. */
  function WithCaColumn(df: seq<Record>): seq<Flagged> {
    if df == [] then [] else [Flagged(df[0], IsIsuCorrespondingAuthor(df[0].RP))] + WithCaColumn(df[1..])
  }

  /** The flag is set exactly when the present RP, upper-cased, contains one of
      "IOWA STATE UNIV", "AMES LAB", "AMES, IA" or "USDA". */
  lemma IsIsuCorrespondingAuthorSpec(rp: Option<string>)
    ensures IsIsuCorrespondingAuthor(rp) <==>
      rp.Some? && exists m :: m in UPPER_MARKERS && Contains(Upper(rp.value), m)
  {
    UpperIowaStateUniv();
    UpperAmesLab();
    UpperAmesIA();
    assert Upper("USDA") == "USDA";
    if rp.Some? {
      var u := Upper(rp.value);
      if IsIsuCorrespondingAuthor(rp) {
        if Contains(u, "IOWA STATE UNIV") {
          assert UPPER_MARKERS[0] in UPPER_MARKERS;
        } else if Contains(u, "AMES LAB") {
          assert UPPER_MARKERS[1] in UPPER_MARKERS;
        } else if Contains(u, "AMES, IA") {
          assert UPPER_MARKERS[2] in UPPER_MARKERS;
        } else {
          assert UPPER_MARKERS[3] in UPPER_MARKERS;
        }
      }
    }
  }

  lemma UpperIowaStateUniv()
    ensures Upper("Iowa State Univ") == "IOWA STATE UNIV"
  {
  }

  lemma UpperAmesLab()
    ensures Upper("Ames Lab") == "AMES LAB"
  {
  }

  lemma UpperAmesIA()
    ensures Upper("Ames, IA") == "AMES, IA"
  {
  }

  /** The flag does not depend on the letter case of the address. */
  lemma IsIsuCorrespondingAuthorIgnoresCase(s: string)
    ensures IsIsuCorrespondingAuthor(Some(Lower(s))) == IsIsuCorrespondingAuthor(Some(s))
  {
    UpperOfLower(s);
  }

  /** An address naming the university in the export's own spelling is flagged. */
  lemma UniversityAddressIsFlagged(rest: string)
    ensures IsIsuCorrespondingAuthor(Some("Iowa State Univ" + rest))
  {
    var s := "Iowa State Univ" + rest;
    assert OccursAt(s, "Iowa State Univ", 0);
    ContainsIffOccurs(s, "Iowa State Univ");
    ContainsImpliesContainsIgnoreCase(s, "Iowa State Univ");
  }

  /** Adding the column changes no row count and no other field. */
  lemma {:induction false} WithCaColumnSpec(df: seq<Record>)
    ensures |WithCaColumn(df)| == |df|
    ensures forall i :: 0 <= i < |df| ==>
      WithCaColumn(df)[i].rec == df[i] && WithCaColumn(df)[i].ISU_CA == IsIsuCorrespondingAuthor(df[i].RP)
  {
    if df != [] {
      WithCaColumnSpec(df[1..]);
    }
  }

  /** The two choices of the sidebar radio button. */
  datatype CaChoice = Yes | No

  /** `filt`: `ISU_CA == True` for "Yes"; `(ISU_CA == True) | (ISU_CA == False)` otherwise. */
  function CaMask(df: seq<Flagged>, choice: CaChoice): seq<bool> {
    match choice
    case Yes => seq(|df|, i requires 0 <= i < |df| => df[i].ISU_CA == true)
    case No => seq(|df|, i requires 0 <= i < |df| => df[i].ISU_CA == true || df[i].ISU_CA == false)
  }

  /** "Yes" selects exactly the flagged rows, "No" selects every row. */
  lemma CaMaskSpec(df: seq<Flagged>, choice: CaChoice)
    ensures |CaMask(df, choice)| == |df|
    ensures forall i :: 0 <= i < |df| ==> (CaMask(df, choice)[i] <==> choice == No || df[i].ISU_CA)
  {
  }

  /** Why a mask could not be applied. */
  datatype MaskError = UnalignableMask

  /** The rows whose mask entry holds; the mask is at least as long as the rows. */
  function MaskedRows<T>(rows: seq<T>, mask: seq<bool>): seq<T>
    requires |rows| <= |mask|
  {
    if rows == [] then [] else (if mask[0] then [rows[0]] else []) + MaskedRows(rows[1..], mask[1..])
  }

  /** `df[filt]` with a Boolean Series: the mask is aligned to the rows by label (both
      labelled 0, 1, ...). A row whose label the mask lacks makes the indexing fail. */
  function SelectRows<T>(rows: seq<T>, mask: seq<bool>): Result<seq<T>, MaskError> {
    if |rows| > |mask| then Failure(UnalignableMask) else Success(MaskedRows(rows, mask))
  }

  /** Selecting with a mask that is some predicate of each row is filtering by it. */
  lemma {:induction false} MaskedRowsIsFilter<T>(rows: seq<T>, mask: seq<bool>, p: T -> bool)
    requires |rows| == |mask|
    requires forall i :: 0 <= i < |rows| ==> mask[i] == p(rows[i])
    ensures MaskedRows(rows, mask) == Filter(rows, p)
  {
    if rows != [] {
      MaskedRowsIsFilter(rows[1..], mask[1..], p);
    }
  }

  predicate IsFlagged(f: Flagged) {
    f.ISU_CA
  }

  /** The number shown beside the radio button is the number of flagged rows for "Yes"
      and the number of all rows for "No". */
  lemma SelectedOnFlaggedTable(df: seq<Flagged>, choice: CaChoice)
    ensures SelectRows(df, CaMask(df, choice)).Success?
    ensures choice == Yes ==> SelectRows(df, CaMask(df, choice)).value == Filter(df, IsFlagged)
    ensures choice == No ==> SelectRows(df, CaMask(df, choice)).value == df
  {
    CaMaskSpec(df, choice);
    if choice == Yes {
      MaskedRowsIsFilter(df, CaMask(df, choice), IsFlagged);
    } else {
      MaskedRowsIsFilter(df, CaMask(df, choice), (f: Flagged) => true);
      FilterAll(df, (f: Flagged) => true);
    }
  }
}
