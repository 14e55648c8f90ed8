/** The web client's relative handshake time (`formatLastHandshake`) and
    date display (`formatDate`). The clock and date parsing are inputs:
    `diff` is now minus the handshake time in milliseconds, `None` when the
    handshake text is not a date (JavaScript's NaN). */
module UiFormatting {
  import opened Wrappers
  import opened Text

  const SecondMs := 1000
  const MinuteMs := 60000
  const HourMs := 3600000
  const DayMs := 86400000

  /** `"<n> <unit>s ago"`, or the singular form when `n` is 1. */
  function Ago(n: int, unit: string): string {
    if n == 1 then "1 " + unit + " ago" else IntToString(n) + " " + unit + "s ago"
  }

  /** For a count that is not negative the text starts with its decimal
      digits, and the plural `s` is there exactly when the count is not 1. */
  lemma AgoReadsBack(n: nat, unit: string)
    ensures Ago(n, unit) == NatToString(n) + " " + unit + (if n == 1 then "" else "s") + " ago"
  {
  }

  /** A handshake that never happened. */
  predicate NeverHandshake(lastHandshake: string) {
    lastHandshake == "0" || lastHandshake == ""
  }

  /** `formatLastHandshake`. JavaScript's `Math.floor` of a quotient by a
      positive constant is Dafny's `/`, which rounds toward minus infinity
      for a positive divisor. */
  function FormatLastHandshake(lastHandshake: string, diff: Option<int>): string {
    if NeverHandshake(lastHandshake) then "Never"
    else if diff.None? then "NaN days ago"
    else
      var d := diff.value;
      if d < MinuteMs then Ago(d / SecondMs, "second")
      else if d < HourMs then Ago(d / MinuteMs, "minute")
      else if d < DayMs then Ago(d / HourMs, "hour")
      else Ago(d / DayMs, "day")
  }

  /** The largest unit that fits: whole seconds below a minute (0 to 59),
      whole minutes below an hour (1 to 59), whole hours below a day (1 to
      23), whole days beyond. */
  lemma HandshakeBuckets(lastHandshake: string, d: nat)
    requires !NeverHandshake(lastHandshake)
    ensures var r := FormatLastHandshake(lastHandshake, Some(d));
      (d < MinuteMs ==> 0 <= d / SecondMs < 60 && r == Ago(d / SecondMs, "second")) &&
      (MinuteMs <= d < HourMs ==> 1 <= d / MinuteMs < 60 && r == Ago(d / MinuteMs, "minute")) &&
      (HourMs <= d < DayMs ==> 1 <= d / HourMs < 24 && r == Ago(d / HourMs, "hour")) &&
      (DayMs <= d ==> 1 <= d / DayMs && r == Ago(d / DayMs, "day"))
  {
  }

  /** The never-connected marker and an unparseable date. */
  lemma HandshakeSpecialCases(lastHandshake: string, diff: Option<int>)
    ensures NeverHandshake(lastHandshake) ==> FormatLastHandshake(lastHandshake, diff) == "Never"
    ensures !NeverHandshake(lastHandshake) && diff.None? ==> FormatLastHandshake(lastHandshake, diff) == "NaN days ago"
  {
  }

  /** A handshake up to a second in the future (clock skew) reads as
      "-1 seconds ago": the count is floored, not truncated. */
  lemma FutureHandshake(lastHandshake: string, d: int)
    requires !NeverHandshake(lastHandshake)
    requires -SecondMs <= d < 0
    ensures FormatLastHandshake(lastHandshake, Some(d)) == "-1 seconds ago"
  {
  }

  /** `formatDate`: `N/A` for a missing date, else the locale rendering
      (an input). */
  function FormatDate(dateString: string, localized: string): (r: string)
    ensures dateString == "" || dateString == "0" ==> r == "N/A"
    ensures dateString != "" && dateString != "0" ==> r == localized
  {
    if dateString == "" || dateString == "0" then "N/A" else localized
  }
}
