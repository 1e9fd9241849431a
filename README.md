# SIP calculator core, modelled in Dafny

The SIP calculator is a single-page app that projects the future value of
one or more Systematic Investment Plans. In a plan, a fixed amount is paid
in at the start of every month and compounds monthly at one twelfth of an
annual rate. Under the widgets and charts, the app has three small pieces of
logic, and this project models each one:

- `sip_formula.dfy` (module `SipFormula`) holds the future-value formula
  `c * (((1 + r)^n - 1) / r) * (1 + r)`, with `n = years * 12` and
  `r = rate / 100 / 12`. It is evaluated over exact reals with a recursive
  power. It is proved equal to the annuity-due sum
  `c * (q + q^2 + ... + q^n)`, where `q = 1 + r`. Further lemmas show that it
  beats the principal, grows with the number of years, and gives 12,809.33
  for 1000 a month at 12% over one year.
- `funds.dfy` (module `Funds`) holds the `Fund` record and the session's fund
  list, a class `FundStore` with a `seq<Fund>` field. Its methods change the
  list in place:
  - append the default record;
  - remove record `i`, as `pop(i)` does;
  - write one record's fields back from the form;
  - replace the whole list from an uploaded table.

  An upload must first pass a required-column check, which names exactly
  the missing columns.
- `report.dfy` (module `Reporting`) holds the calculation pass, `BuildReport`.
  It is a loop with running totals. It builds one row per fund, in list
  order, and gives a blank-named fund the label `Fund <position>`. It sums
  the unrounded invested amounts and future values and derives the
  estimated return. The module also holds the two percentage figures shown
  beside the totals, and lemmas that tie these totals to the rows, to the
  list edits and to each other.

Zero rate: the code has no guard for a zero rate. `calculate_sip_future_value`
divides by the monthly rate, so a fund at 0% raises a division error, and
the formula does not return the principal. The model follows the code:
`SipFormula.FutureValue` requires a non-zero rate, and `BuildReport` stops with
`ZeroRateError` at the first fund whose rate is zero. In the same way, the
percentage figures divide by the total invested. `MetricDeltas` gives
`DivisionByZero` exactly where the code would divide by zero.

Rates are required to be non-zero, not positive. Python evaluates the
formula for negative rates too, and the input widgets (not modelled)
already keep rates at 0 or above.

## Model

| member | source | states |
|---|---|---|
| `SipFormula.FutureValue` | main.py:10-27 | defined for every non-zero rate; the value equals the contribution times the annuity-due sum q + q^2 + ... + q^n, with q = 1 + rate/1200 and n = 12 * years |
| `SipFormula.ClosedFormIsAnnuityDue` | main.py:24-26 | for every non-zero monthly rate r, ((1+r)^n - 1)/r * (1+r) equals the sum of (1+r)^k for k = 1..n |
| `SipFormula.GeometricClosedForm` | main.py:24-26 | the geometric-series identity behind the closed form: (q - 1) * (q + ... + q^n) == (q^n - 1) * q, for every q and n |
| `SipFormula.FutureValueExceedsInvested` | main.py:22-27 | with a positive contribution, a positive rate and at least one year, the future value is strictly more than contribution * years * 12 |
| `SipFormula.FutureValueCoversInvested` | main.py:22-27 | with a non-negative contribution and a positive rate, the future value is never below the amount invested |
| `SipFormula.FutureValueIncreasesWithYears` | main.py:22-27 | with a positive contribution and rate, more years give a strictly larger future value |
| `SipFormula.InvestedAmount` | main.py:164 | the amount paid in is the contribution times the number of months, and equals the annuity-due sum with no growth (q = 1) |
| `SipFormula.OneYearAtTwelvePercent` | main.py:22-27 | 1000 a month at 12% for one year gives a future value strictly between 12809.328 and 12809.329, which rounds to 12,809.33 under any tie rule |
| `Funds.DefaultFund` | main.py:136-141 | the added record has a blank name, 1000.0 a month, a 7.0% rate and 10 years, and satisfies the input bounds |
| `Funds.MissingColumns` | main.py:80-81 | a column is reported missing exactly when it is required and absent from the header; the report keeps the required order |
| `Funds.AcceptedIffAllPresent` | main.py:80-83 | an upload passes the column check exactly when every required column is in the header, whatever extra columns it has |
| `Funds.MissingYearsOnly` | main.py:80-84 | a header lacking only `years` (with an extra column) is rejected, naming exactly `years` |
| `Funds.FundStore.constructor` | main.py:30-33 | a session starts with an empty fund list |
| `Funds.FundStore.AddFund` | main.py:135-141 | the default record is appended at the end; the length grows by one and every earlier record is unchanged |
| `Funds.FundStore.RemoveFund` | main.py:129-130 | for i < length, the list becomes funds[..i] + funds[i+1..]; earlier records stay put and later ones move down by one |
| `Funds.FundStore.EditFund` | main.py:92-125 | record i gets the four field values from the form; every other record is unchanged |
| `Funds.FundStore.Import` | main.py:74-88 | a table with missing required columns is rejected, naming all of them in required order, and the list is unchanged; otherwise the list is replaced by the table's records in row order and the count is reported |
| `Reporting.DecimalString` | main.py:169 | the 1-based position is written as a non-empty string of decimal digits, with no leading zero (a leading '0' only for 0 itself) |
| `Reporting.DecimalRoundTrip` | main.py:169 | reading the written position back as a decimal number gives the position |
| `Reporting.DisplayName` | main.py:169 | a non-blank name is shown as is, and the label is never empty |
| `Reporting.BlankNameLabel` | main.py:169 | a blank name is shown as "Fund " followed by decimal digits that denote the 1-based position idx + 1 |
| `Reporting.PositionalLabelsDistinct` | main.py:169 | blank-named funds at different positions get different labels |
| `Reporting.ReportRow` | main.py:168-173 | a fund's row (before rounding) has the invested amount contribution * months, and its invested amount plus estimated returns equals its future value; with admissible inputs the estimated returns are never negative |
| `Reporting.BuildReport` | main.py:148-175 | no funds gives only the warning; a zero rate stops the pass at the first such fund; otherwise there is one row per fund in list order (name, invested, future value minus invested, future value), the totals are the exact unrounded sums, and the estimated return is their difference |
| `Reporting.MetricDeltas` | main.py:202-212 | the percentages exist exactly when the total invested is non-zero; then return% * invested == returns * 100 and future% * invested == future value * 100 |
| `Reporting.FuturePercentIsReturnPercentPlusHundred` | main.py:204-211 | when the estimated return is the future value minus the invested total, the future-value percentage is the return percentage plus 100 |
| `Reporting.SumInvestedAppend` | main.py:155-166 | the invested total over a concatenation is the sum of the totals of its parts |
| `Reporting.SumFutureValueAppend` | main.py:154-165 | the future-value total over a concatenation is the sum of the parts' totals, so a portfolio's total is the sum of its funds' independent values |
| `Reporting.RowsAddUpToSummary` | main.py:164-175 | the unrounded row amounts add up exactly to the summary: invested to the total invested, future values to the total future value, returns to their difference |
| `Reporting.InvestedPositiveIff` | main.py:164-166 | with contributions >= 0 and years >= 1, the total invested is >= 0, and it is > 0 exactly when some fund pays in a positive amount |
| `Reporting.PortfolioCoversInvested` | main.py:159-175 | with admissible inputs and no zero rate, the total future value is at least the total invested |
| `Reporting.RemoveFundInvested` | main.py:129-130 | popping fund i takes exactly that fund's invested amount out of the invested total |
| `Reporting.RemoveFundFutureValue` | main.py:129-130 | with no zero rate, popping fund i takes exactly that fund's future value out of the future-value total |
| `Reporting.AddDefaultFundTotals` | main.py:136-141 | appending the default fund adds exactly 120000 to the invested total and more than that to the future-value total |

## Left out

- Rendering: the Streamlit layer is not modelled. This covers page setup, the instructions, containers and columns, buttons, `st.rerun`, warnings and success or error messages, and metrics. The model's outcome values stand for the messages.
- Input widgets: the text and number inputs are not modelled, including their `min_value` clamping. `EditFund` takes the values the widgets return. `Funds.Admissible` states the widgets' bounds, and the lemmas that need them assume them.
- Reruns: each upload is modelled as one import. While a file stays selected, every rerun of the script re-imports it and replaces any later edits. That rerun behaviour belongs to the framework and is outside this model.
- The pie chart and the table display are not modelled. They are calls into a charting library.
- CSV handling: parsing and serialisation are not modelled. A parsed table is its header plus one `Fund` per data row. Extra columns are dropped from the records. Blank or non-numeric cells, which become NaN or strings in the source, are not representable. The generic exception path for unreadable files (main.py:89-90) is not modelled.
- Downloads: the two download buttons and their UTF-8 encoding are not modelled. They are I/O.
- Rounding and formatting: floating point, `round(..., 2)` and the `,.2f` and `%` formatting are not modelled. Amounts are exact reals. Rows hold the unrounded values, so the model cannot show how rounded rows can drift from the rounded totals.
- Year counts: `Funds.Fund` holds years as a natural number, so negative or fractional years from an uploaded file cannot be expressed. In the source, a negative year count would mean a negative power.
- `Reporting.MetricDeltas`: returns `DivisionByZero` where the source raises a division-by-zero error. The model does not capture that the chart has already been drawn when it is raised.
