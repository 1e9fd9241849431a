/**
  The session's list of fund records and the edits the input form makes to
  it: appending a default record, removing one by position, overwriting one
  record's fields, and replacing the whole list from an uploaded table.
 */
module Funds {

  /** One SIP: a name (possibly blank), the monthly contribution, the annual rate in percent, the duration. */
  datatype Fund = Fund(fundName: string, monthlyInvestment: real, rateOfReturn: real, years: nat)

  /** The record appended by the "Add Fund" button. */
  function DefaultFund(): (f: Fund)
    ensures f.fundName == [] && f.years == 10
    ensures Admissible(f) && f.monthlyInvestment == 1000.0 && f.rateOfReturn == 7.0
  {
    Fund("", 1000.0, 7.0, 10)
  }

  /** The bounds the numeric inputs enforce: no negative amounts or rates, at least one year. */
  predicate Admissible(f: Fund)
  {
    f.monthlyInvestment >= 0.0 && f.rateOfReturn >= 0.0 && f.years >= 1
  }

  /** The columns an uploaded table must have, in the order they are reported when missing. */
  const REQUIRED_COLUMNS: seq<string> := ["fund_name", "monthly_investment", "rate_of_return", "years"]

  /**
    An uploaded table after parsing: its header and one record per data row,
    in row order (columns other than the required four play no part).
   */
  datatype Table = Table(columns: seq<string>, records: seq<Fund>)

  /** What an upload reports to the user. */
  datatype ImportOutcome = MissingColumnsError(missing: seq<string>) | Imported(count: nat)

  /** a occurs in b with its order kept (possibly with gaps). */
  predicate IsSubsequence(a: seq<string>, b: seq<string>)
  {
    if a == [] then true
    else if b == [] then false
    else if a[0] == b[0] then IsSubsequence(a[1..], b[1..])
    else IsSubsequence(a, b[1..])
  }

  /** The required columns absent from the header, in the order they are required. */
  function MissingColumns(required: seq<string>, columns: seq<string>): (missing: seq<string>)
    ensures forall c :: c in missing <==> c in required && c !in columns
    ensures IsSubsequence(missing, required)
  {
    if required == [] then []
    else if required[0] in columns then MissingColumns(required[1..], columns)
    else [required[0]] + MissingColumns(required[1..], columns)
  }

  /** A table lacking only "years" is rejected naming exactly that column. */
  lemma MissingYearsOnly()
    ensures MissingColumns(REQUIRED_COLUMNS, ["fund_name", "monthly_investment", "rate_of_return", "notes"]) == ["years"]
  {
  }

  /**
    A table is accepted exactly when its header holds every required column;
    extra columns never cause a rejection.
   */
  lemma AcceptedIffAllPresent(required: seq<string>, columns: seq<string>)
    ensures MissingColumns(required, columns) == [] <==> forall c :: c in required ==> c in columns
  {
  }

  /** The session's fund list, owned by one interactive session. */
  class FundStore {
    var funds: seq<Fund>

    /** A new session starts with no funds. */
    constructor ()
      ensures funds == []
    {
      funds := [];
    }

    /** "Add Fund": append the default record; earlier records keep their places and values. */
    method AddFund()
      modifies this
      ensures funds == old(funds) + [DefaultFund()]
      ensures |funds| == |old(funds)| + 1
      ensures forall k :: 0 <= k < |old(funds)| ==> funds[k] == old(funds)[k]
    {
      funds := funds + [DefaultFund()];
    }

    /** "Remove Fund i + 1": pop record i; earlier records stay, later ones move down by one. */
    method RemoveFund(i: nat)
      requires i < |funds|
      modifies this
      ensures funds == old(funds)[..i] + old(funds)[i + 1..]
      ensures |funds| == |old(funds)| - 1
      ensures forall k :: 0 <= k < i ==> funds[k] == old(funds)[k]
      ensures forall k :: i <= k < |funds| ==> funds[k] == old(funds)[k + 1]
    {
      funds := funds[..i] + funds[i + 1..];
    }

    /** The form writes the four current field values back into record i; no other record changes. */
    method EditFund(i: nat, fundName: string, monthlyInvestment: real, rateOfReturn: real, years: nat)
      requires i < |funds|
      modifies this
      ensures funds == old(funds)[i := Fund(fundName, monthlyInvestment, rateOfReturn, years)]
      ensures forall k :: 0 <= k < |funds| && k != i ==> funds[k] == old(funds)[k]
    {
      var fund := funds[i];
      fund := fund.(fundName := fundName);
      fund := fund.(monthlyInvestment := monthlyInvestment);
      fund := fund.(rateOfReturn := rateOfReturn);
      fund := fund.(years := years);
      funds := funds[i := fund];
    }

    /**
      Upload: a table missing any required column is rejected, naming every
      missing column, and the list is left as it was; otherwise the list is
      replaced outright by the table's records.
     */
    method Import(table: Table) returns (outcome: ImportOutcome)
      modifies this
      ensures var missing := MissingColumns(REQUIRED_COLUMNS, table.columns);
        if missing != [] then outcome == MissingColumnsError(missing) && funds == old(funds)
        else outcome == Imported(|table.records|) && funds == table.records
    {
      var missing := MissingColumns(REQUIRED_COLUMNS, table.columns);
      if missing != [] {
        outcome := MissingColumnsError(missing);
      } else {
        funds := table.records;
        outcome := Imported(|funds|);
      }
    }
  }
}
