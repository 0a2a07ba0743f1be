/**
 * The records the table builder reads: a sample with its identifying fields,
 * three optional dates and its analyses, and the `MM-DD-YY` date format
 * (`strftime('%m-%d-%y')`) used for every date cell.
 */
module Records {
  import opened Wrappers

  datatype Date = Date(year: nat, month: nat, day: nat)

  /** A date as the sample's date fields hold it: a real calendar month and day. */
  type CalendarDate = d: Date | 1 <= d.month <= 12 && 1 <= d.day <= 31 witness Date(2000, 1, 1)

  /** One analysis of a sample, with the attributes the builder reads:
      `Title()`, `getCategoryTitle()`, `getFormattedResult(html=False)` and
      the unit of its service. */
  datatype Analysis = Analysis(title: string, category: string, result: string, unit: string)

  /** A sample, as seen through its read-only data adapter. Dates are absent
      when the sample has none. `analyses` is in the order the sample returns them. */
  datatype Sample = Sample(
    id: string,
    clientSampleId: string,
    sampleType: string,
    samplePoint: string,
    dateSampled: Option<CalendarDate>,
    dateReceived: Option<CalendarDate>,
    dateVerified: Option<CalendarDate>,
    analyses: seq<Analysis>)

  predicate IsDigit(c: char) {
    '0' <= c <= '9'
  }

  function Digit(n: nat): (c: char)
    requires n < 10
    ensures IsDigit(c)
  {
    (48 + n) as char
  }

  function DigitValue(c: char): nat
    requires IsDigit(c)
  {
    (c as int) - 48
  }

  /** A number below 100 written with two digits, zero-padded. */
  function TwoDigits(n: nat): (r: string)
    requires n < 100
    ensures |r| == 2 && IsDigit(r[0]) && IsDigit(r[1])
    ensures 10 * DigitValue(r[0]) + DigitValue(r[1]) == n
  {
    [Digit(n / 10), Digit(n % 10)]
  }

  /** `strftime('%m-%d-%y')`: two-digit month, day and year of the century,
      separated by dashes. */
  function FormatDate(d: CalendarDate): string {
    TwoDigits(d.month) + "-" + TwoDigits(d.day) + "-" + TwoDigits(d.year % 100)
  }

  /** Reads back a `MM-DD-YY` string as (month, day, year of the century). */
  ghost function ParseDate(s: string): Option<(nat, nat, nat)> {
    if |s| == 8 && s[2] == '-' && s[5] == '-'
       && IsDigit(s[0]) && IsDigit(s[1]) && IsDigit(s[3]) && IsDigit(s[4])
       && IsDigit(s[6]) && IsDigit(s[7])
    then
      Some((10 * DigitValue(s[0]) + DigitValue(s[1]),
            10 * DigitValue(s[3]) + DigitValue(s[4]),
            10 * DigitValue(s[6]) + DigitValue(s[7])))
    else
      None
  }

  /** A formatted date is eight characters with dashes at positions 2 and 5,
      and reads back as the month, the day and the year modulo 100: the
      century is lost, nothing else is. */
  lemma FormatDateRoundTrip(d: CalendarDate)
    ensures |FormatDate(d)| == 8 && FormatDate(d)[2] == '-' && FormatDate(d)[5] == '-'
    ensures ParseDate(FormatDate(d)) == Some((d.month, d.day, d.year % 100))
  {
  }

  /** The cell written for an optional date: formatted when present, empty
      when absent (the source keeps `None`, which the CSV writer prints as an
      empty field). */
  function DateCell(d: Option<CalendarDate>): string {
    match d
    case None => ""
    case Some(date) => FormatDate(date)
  }

  /** The cell is empty exactly when the date is absent; otherwise it reads
      back as the date's month, day and two-digit year. */
  lemma DateCellSpec(d: Option<CalendarDate>)
    ensures d.None? <==> DateCell(d) == ""
    ensures d.Some? ==> ParseDate(DateCell(d)) == Some((d.value.month, d.value.day, d.value.year % 100))
  {
    if d.Some? {
      FormatDateRoundTrip(d.value);
    }
  }

  /** The seven fixed labels: row labels of the per-sample table, leading
      column names of the multi-sample table. */
  const FixedHeaders: seq<string> :=
    ["Sample ID", "Client Sample ID", "Sample Type", "Sample Point",
     "Date Sampled", "Date Received", "Date Verified"]

  /** The seven fixed values of a sample, in the order of `FixedHeaders`. */
  function FixedCells(s: Sample): (r: seq<string>)
    ensures |r| == |FixedHeaders|
  {
    [s.id, s.clientSampleId, s.sampleType, s.samplePoint,
     DateCell(s.dateSampled), DateCell(s.dateReceived), DateCell(s.dateVerified)]
  }
}
