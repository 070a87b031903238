/** DOI normalisation: the DI column is overwritten with its lower-cased text; a missing
    DOI stays missing. Python's `str.lower` is modelled on ASCII letters only. */
module Doi {
  import opened Wrappers
  import opened Text
  import opened Records

  function LowerCell(cell: Option<string>): Option<string> {
    match cell
    case None => None
    case Some(s) => Some(Lower(s))
  }

  /** The row with its DOI lower-cased and every other cell as it was. */
  function WithLowerDoi(r: Record): Record {
    r.(DI := LowerCell(r.DI))
  }

  /** The whole table after the DI column is rewritten. */
  function LowerDois(df: seq<Record>): seq<Record> {
    seq(|df|, i requires 0 <= i < |df| => WithLowerDoi(df[i]))
  }

  /** Rewrites the DI column in place, row by row. */
  method LowerDoiColumn(df: array<Record>)
    modifies df
    ensures df[..] == LowerDois(old(df[..]))
  {
    for i := 0 to df.Length
      invariant forall k :: 0 <= k < i ==> df[k] == WithLowerDoi(old(df[k]))
      invariant forall k :: i <= k < df.Length ==> df[k] == old(df[k])
    {
      df[i] := df[i].(DI := LowerCell(df[i].DI));
    }
  }

  /** After the rewrite no DOI holds an upper-case letter, the row count and every other
      column are unchanged, and each DOI still matches the old one ignoring case. */
  lemma LowerDoisSpec(df: seq<Record>)
    ensures |LowerDois(df)| == |df|
    ensures forall i :: 0 <= i < |df| ==>
      var r, r' := df[i], LowerDois(df)[i];
      && r'.DT == r.DT && r'.RP == r.RP && r'.TI == r.TI && r'.PU == r.PU
      && r'.SO == r.SO && r'.JI == r.JI
      && r'.DI.Some? == r.DI.Some?
      && (r.DI.Some? ==> NoUpperCase(r'.DI.value) && Upper(r'.DI.value) == Upper(r.DI.value))
  {
    forall i | 0 <= i < |df| && df[i].DI.Some?
      ensures NoUpperCase(LowerDois(df)[i].DI.value)
      ensures Upper(LowerDois(df)[i].DI.value) == Upper(df[i].DI.value)
    {
      LowerIsLowerCase(df[i].DI.value);
      UpperOfLower(df[i].DI.value);
    }
  }

  /** Normalising twice is the same as normalising once. */
  lemma LowerDoisIdempotent(df: seq<Record>)
    ensures LowerDois(LowerDois(df)) == LowerDois(df)
  {
    forall i | 0 <= i < |df| && df[i].DI.Some?
      ensures Lower(Lower(df[i].DI.value)) == Lower(df[i].DI.value)
    {
      LowerIsLowerCase(df[i].DI.value);
    }
  }

  predicate NoUpperCase(s: string) {
    forall i :: 0 <= i < |s| ==> !IsUpperLetter(s[i])
  }
}
