/**
 * scripts/log_2fa_cron.js: a one-shot job that reads the seed file and
 * prints the current code, stamped with the UTC time. The calendar fields
 * of `new Date()` and the Unix time are inputs, the file read is the
 * `SeedRead` outcome, and the printed line and exit status are the result.
 */
module CronLog {

  import opened JsText
  import Hex
  import Totp

  /** What `getUTCFullYear`, `getUTCMonth` (0-based), `getUTCDate` and the rest return. */
  datatype UtcTime = UtcTime(year: int, month: nat, day: nat, hours: nat, minutes: nat, seconds: nat)

  /** The ranges JavaScript's `Date` keeps its UTC fields in. */
  predicate IsUtcTime(t: UtcTime) {
    t.month < 12 && 1 <= t.day <= 31 && t.hours < 24 && t.minutes < 60 && t.seconds < 60
  }

  /** `String(n).padStart(2, '0')` for a field below 100: two digits whose value is `n`. */
  function TwoDigits(n: nat): (s: string)
    requires n < 100
    ensures |s| == 2 && AllDigits(s) && DecimalValue(s) == n
  {
    PaddedDecimal(n, 2);
    PadStart(NatToDecimal(n), 2, '0')
  }

  /**
   * `utcNowString`: `yyyy-mm-dd HH:MM:SS`. The year is printed as it is;
   * after it come `-`, the 1-based month, `-`, the day, one space, the
   * hours, `:`, the minutes, `:` and the seconds, each exactly two digits.
   */
  function UtcNowString(t: UtcTime): (s: string)
    requires IsUtcTime(t)
    ensures var y := |IntToString(t.year)|;
            && |s| == y + 15
            && s[..y] == IntToString(t.year)
            && s[y] == '-' && s[y + 3] == '-' && s[y + 6] == ' ' && s[y + 9] == ':' && s[y + 12] == ':'
            && AllDigits(s[y + 1..y + 3]) && DecimalValue(s[y + 1..y + 3]) == t.month + 1
            && AllDigits(s[y + 4..y + 6]) && DecimalValue(s[y + 4..y + 6]) == t.day
            && AllDigits(s[y + 7..y + 9]) && DecimalValue(s[y + 7..y + 9]) == t.hours
            && AllDigits(s[y + 10..y + 12]) && DecimalValue(s[y + 10..y + 12]) == t.minutes
            && AllDigits(s[y + 13..]) && DecimalValue(s[y + 13..]) == t.seconds
  {
    var yyyy := IntToString(t.year);
    var mm, dd := TwoDigits(t.month + 1), TwoDigits(t.day);
    var hh, mi, ss := TwoDigits(t.hours), TwoDigits(t.minutes), TwoDigits(t.seconds);
    var rest := ['-'] + mm + ['-'] + dd + [' '] + hh + [':'] + mi + [':'] + ss;
    FieldLayout(mm, dd, hh, mi, ss);
    var s := yyyy + rest;
    SuffixSlices(yyyy, rest);
    s
  }

  /** Where the separators and the two-digit fields sit after the year. */
  lemma FieldLayout(mm: string, dd: string, hh: string, mi: string, ss: string)
    requires |mm| == 2 && |dd| == 2 && |hh| == 2 && |mi| == 2 && |ss| == 2
    ensures var rest := ['-'] + mm + ['-'] + dd + [' '] + hh + [':'] + mi + [':'] + ss;
            && |rest| == 15
            && rest[0] == '-' && rest[3] == '-' && rest[6] == ' ' && rest[9] == ':' && rest[12] == ':'
            && rest[1..3] == mm && rest[4..6] == dd && rest[7..9] == hh && rest[10..12] == mi && rest[13..] == ss
  {
  }

  lemma SuffixSlices(p: string, rest: string)
    requires |rest| == 15
    ensures var s, y := p + rest, |p|;
            && s[..y] == p
            && (forall i :: 0 <= i < 15 ==> s[y + i] == rest[i])
            && s[y + 1..y + 3] == rest[1..3] && s[y + 4..y + 6] == rest[4..6] && s[y + 7..y + 9] == rest[7..9]
            && s[y + 10..y + 12] == rest[10..12] && s[y + 13..] == rest[13..]
  {
  }

  lemma ConcatSplit(a: string, b: string)
    ensures (a + b)[..|a|] == a && (a + b)[|a|..] == b
  {
  }

  /** With a four-digit year the timestamp is 19 characters with its separators at fixed places. */
  lemma TimestampOfFourDigitYear(t: UtcTime)
    requires IsUtcTime(t) && 1000 <= t.year <= 9999
    ensures var s := UtcNowString(t);
            && |s| == 19
            && s[4] == '-' && s[7] == '-' && s[10] == ' ' && s[13] == ':' && s[16] == ':'
            && AllDigits(s[..4]) && DecimalValue(s[..4]) == t.year
  {
    DecimalLength(t.year, 4);
  }

  /** How reading `seed.txt` went. */
  datatype SeedRead = NotFound | ReadError(message: string) | Contents(text: string)

  datatype Stream = Stdout | Stderr

  /** The one line the job prints, where, and the status it exits with. */
  datatype CronOutput = CronOutput(stream: Stream, line: string, exitCode: nat)

  /**
   * The job: a missing file and a seed failing the gate are reported on
   * stderr and are not failures (status 0); a usable seed prints its code
   * on stdout (status 0); an error while reading is the only failure (status 1).
   */
  function RunCron(file: SeedRead, t: UtcTime, seedPath: string, now: int, hotp: Totp.Hotp)
    : (out: CronOutput)
    requires IsUtcTime(t)
    ensures out.exitCode == (if file.ReadError? then 1 else 0)
    ensures out.stream == Stdout <==> file.Contents? && Hex.IsSeedFormat(Trim(file.text))
    ensures file.NotFound? ==> out.line == UtcNowString(t) + " - Seed not found at " + seedPath
    ensures file.Contents? && !Hex.IsSeedFormat(Trim(file.text)) ==>
              out.line == UtcNowString(t) + " - Invalid seed format at " + seedPath
    ensures file.Contents? && Hex.IsSeedFormat(Trim(file.text)) ==>
              var prefix := UtcNowString(t) + " - 2FA Code: ";
              && |out.line| >= |prefix| && out.line[..|prefix|] == prefix
              && out.line[|prefix|..] == Totp.GenerateTotp(Trim(file.text), now, hotp).value.code
              && Totp.IsCode(out.line[|prefix|..])
    ensures file.ReadError? ==> out.line == UtcNowString(t) + " - ERROR: " + file.message
  {
    var stamp := UtcNowString(t);
    match file
    case NotFound => CronOutput(Stderr, stamp + " - Seed not found at " + seedPath, 0)
    case ReadError(message) => CronOutput(Stderr, stamp + " - ERROR: " + message, 1)
    case Contents(text) =>
      var hex := Trim(text);
      if !Hex.IsSeedFormat(hex) then CronOutput(Stderr, stamp + " - Invalid seed format at " + seedPath, 0)
      else
        var code := Totp.GenerateTotp(hex, now, hotp).value.code;
        ConcatSplit(stamp + " - 2FA Code: ", code);
        CronOutput(Stdout, stamp + " - 2FA Code: " + code, 0)
  }
}
