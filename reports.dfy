/**
 * The community report store: an append-only collection of temperature reports, each
 * stamped with the submission time in the form `YYYY-MM-DD HH:MM:SS`.
 * The wall clock is an input (`now`), read by the caller.
 */
module Reports {
  import opened Wrappers

  /** One community temperature report. */
  datatype Report = Report(latitude: real, longitude: real, temperature: real,
                           timestamp: string, description: string, reporter: string)

  /** A reading of the wall clock, in the fields the timestamp format prints. */
  datatype DateTime = DateTime(year: int, month: int, day: int, hour: int, minute: int, second: int)

  /** The ranges a clock reading's fields lie in. */
  predicate ValidDateTime(d: DateTime)
  {
    1 <= d.year <= 9999 && 1 <= d.month <= 12 && 1 <= d.day <= 31
    && 0 <= d.hour <= 23 && 0 <= d.minute <= 59 && 0 <= d.second <= 59
  }

  function Pow10(width: nat): nat
  {
    if width == 0 then 1 else 10 * Pow10(width - 1)
  }

  predicate IsDigit(ch: char)
  {
    '0' <= ch <= '9'
  }

  /** `n` in decimal with exactly `width` digits, zero-padded on the left (strftime's %Y, %m, %d, ...). */
  function Pad(n: nat, width: nat): (s: string)
    requires n < Pow10(width)
    ensures |s| == width
    ensures forall i :: 0 <= i < width ==> IsDigit(s[i])
  {
    if width == 0 then "" else Pad(n / 10, width - 1) + [('0' as int + n % 10) as char]
  }

  /** The number a string of decimal digits denotes. */
  function DigitsValue(s: string): nat
    requires forall i :: 0 <= i < |s| ==> IsDigit(s[i])
  {
    if s == [] then 0 else DigitsValue(s[..|s| - 1]) * 10 + DigitValue(s[|s| - 1])
  }

  function DigitValue(ch: char): nat
    requires IsDigit(ch)
  {
    (ch as int - '0' as int) as nat
  }

  /** The padded digits denote `n` again: padding loses nothing. */
  lemma {:induction false} PadRoundTrip(n: nat, width: nat)
    requires n < Pow10(width)
    ensures DigitsValue(Pad(n, width)) == n
  {
    if width > 0 {
      var s := Pad(n, width);
      assert s[..|s| - 1] == Pad(n / 10, width - 1);
      PadRoundTrip(n / 10, width - 1);
    }
  }

  /** The shape of `%Y-%m-%d %H:%M:%S`: 19 characters, separators at 4, 7, 10, 13 and 16, digits elsewhere. */
  predicate IsTimestamp(s: string)
  {
    |s| == 19 && s[4] == '-' && s[7] == '-' && s[10] == ' ' && s[13] == ':' && s[16] == ':'
    && forall i :: 0 <= i < 19 && i != 4 && i != 7 && i != 10 && i != 13 && i != 16 ==> IsDigit(s[i])
  }

  /** `strftime("%Y-%m-%d %H:%M:%S")` of a clock reading. */
  function FormatTimestamp(d: DateTime): (s: string)
    requires ValidDateTime(d)
    ensures IsTimestamp(s)
  {
    Pad(d.year, 4) + "-" + Pad(d.month, 2) + "-" + Pad(d.day, 2) + " "
      + Pad(d.hour, 2) + ":" + Pad(d.minute, 2) + ":" + Pad(d.second, 2)
  }

  /** Reads a timestamp back into its fields; `None` for a string of another shape. */
  function ParseTimestamp(s: string): Option<DateTime>
  {
    if IsTimestamp(s) then
      Some(DateTime(DigitsValue(s[0..4]), DigitsValue(s[5..7]), DigitsValue(s[8..10]),
                    DigitsValue(s[11..13]), DigitsValue(s[14..16]), DigitsValue(s[17..19])))
    else None
  }

  /** A timestamp records its clock reading exactly: parsing it gives the reading back. */
  lemma TimestampRoundTrip(d: DateTime)
    requires ValidDateTime(d)
    ensures ParseTimestamp(FormatTimestamp(d)) == Some(d)
  {
    var s := FormatTimestamp(d);
    assert s[0..4] == Pad(d.year, 4);
    assert s[5..7] == Pad(d.month, 2);
    assert s[8..10] == Pad(d.day, 2);
    assert s[11..13] == Pad(d.hour, 2);
    assert s[14..16] == Pad(d.minute, 2);
    assert s[17..19] == Pad(d.second, 2);
    PadRoundTrip(d.year, 4);
    PadRoundTrip(d.month, 2);
    PadRoundTrip(d.day, 2);
    PadRoundTrip(d.hour, 2);
    PadRoundTrip(d.minute, 2);
    PadRoundTrip(d.second, 2);
  }

  /** The session's collection of community reports, in insertion order; it only ever grows. */
  class ReportStore {
    var reports: seq<Report>

    constructor ()
      ensures reports == []
    {
      reports := [];
    }

    /**
     * Appends a report stamped with `now`; the reporter defaults to "Anonymous".
     * Every report already stored stays, unchanged and in order, and the call reports success.
     */
    method AddCommunityReport(now: DateTime, lat: real, lon: real, temperature: real, description: string,
                              reporter: string := "Anonymous")
      returns (ok: bool)
      requires ValidDateTime(now)
      modifies this
      ensures ok
      ensures |reports| == |old(reports)| + 1
      ensures reports[..|old(reports)|] == old(reports)
      ensures reports[|old(reports)|] == Report(lat, lon, temperature, FormatTimestamp(now), description, reporter)
      ensures IsTimestamp(reports[|old(reports)|].timestamp)
    {
      var newReport := Report(lat, lon, temperature, FormatTimestamp(now), description, reporter);
      reports := reports + [newReport];
      ok := true;
    }
  }

  /** A report submitted without a reporter name is stored, with its other fields, as from "Anonymous". */
  method AddAnonymousReport(store: ReportStore, now: DateTime, lat: real, lon: real, temperature: real,
                            description: string)
    requires ValidDateTime(now)
    modifies store
    ensures |store.reports| == |old(store.reports)| + 1
    ensures store.reports[..|old(store.reports)|] == old(store.reports)
    ensures store.reports[|old(store.reports)|]
         == Report(lat, lon, temperature, FormatTimestamp(now), description, "Anonymous")
  {
    var _ := store.AddCommunityReport(now, lat, lon, temperature, description);
  }
}
