/** The scheduling arithmetic of `BackupService`: reading the configured backup time, the delay until
    the next run, the notification offsets ("3h", "30m"), which categories a scheduled pass runs and in
    what order, and the restart notifications armed before a scheduled restart. The clock is an input:
    the local time of day in milliseconds, the day of the week and the day of the month. */
module BackupSchedule {
  import opened Wrappers
  import JavaString

  const DefaultHour := 4
  const DefaultMinute := 0

  const MillisPerMinute := 60_000
  const MillisPerHour := 3_600_000
  const MillisPerDay := 86_400_000

  /* ---------------------------------------------------------------- the configured time */

  /** `Integer.parseInt` of field `i`, or `fallback` when the field is missing or does not parse
      (the source's `catch (Exception e)`). */
  function IntFieldOr(fields: seq<string>, i: nat, fallback: int): (r: int)
    ensures i < |fields| && JavaString.ParseInt(fields[i]).Some? ==> r == JavaString.ParseInt(fields[i]).value
    ensures !(i < |fields| && JavaString.ParseInt(fields[i]).Some?) ==> r == fallback
  {
    if i < |fields| then JavaString.ParseInt(fields[i]).GetOr(fallback) else fallback
  }

  /** `parseHourFromTime`: "HH:mm" from the settings page (the field before the first ':'), else a
      cron expression "s m h ..." (its third space-separated field); 4 when that fails. */
  function ParseHourFromTime(timeStr: string): (r: int)
    ensures JavaString.IntMin <= r <= JavaString.IntMax
  {
    if JavaString.Contains(timeStr, ":") then IntFieldOr(JavaString.Split(timeStr, ':'), 0, DefaultHour)
    else IntFieldOr(JavaString.Split(timeStr, ' '), 2, DefaultHour)
  }

  /** `parseMinuteFromTime`: the field after the first ':', else the cron minute field; 0 when that
      fails. */
  function ParseMinuteFromTime(timeStr: string): (r: int)
    ensures JavaString.IntMin <= r <= JavaString.IntMax
  {
    if JavaString.Contains(timeStr, ":") then IntFieldOr(JavaString.Split(timeStr, ':'), 1, DefaultMinute)
    else IntFieldOr(JavaString.Split(timeStr, ' '), 1, DefaultMinute)
  }

  lemma ParsePadded(n: nat)
    requires n < 100
    ensures JavaString.ParseInt(JavaString.Pad(n, 2)) == Some(n)
  {
    JavaString.ParseDecimalOfDigits(JavaString.Pad(n, 2), JavaString.IntMin, JavaString.IntMax);
  }

  /** The "HH:mm" the settings page stores reads back as the hour and minute it was written from. No
      range check happens here: "25:00" reads as hour 25, which `InitialDelay` then refuses. */
  lemma TimeOfDayRoundTrip(hour: nat, minute: nat)
    requires hour < 100 && minute < 100
    ensures var t := JavaString.Pad(hour, 2) + ":" + JavaString.Pad(minute, 2);
      ParseHourFromTime(t) == hour && ParseMinuteFromTime(t) == minute
  {
    var h := JavaString.Pad(hour, 2);
    var m := JavaString.Pad(minute, 2);
    var t := h + ":" + m;
    assert t == JavaString.Join([h, m], ':');
    assert t[2] == ':' && JavaString.OccursAt(t, ":", 2);
    JavaString.ContainsAt(t, ":", 2);
    JavaString.SplitJoin([h, m], ':');
    ParsePadded(hour);
    ParsePadded(minute);
  }

  lemma DigitsAvoid(s: string, x: char)
    requires JavaString.AllDigits(s) && !JavaString.IsDigit(x)
    ensures x !in s
  {
  }

  /** A character missing from every field and different from the separator is missing from the join. */
  lemma {:induction false} JoinAvoids(parts: seq<string>, sep: char, x: char)
    requires |parts| >= 1 && sep != x
    requires forall i :: 0 <= i < |parts| ==> x !in parts[i]
    ensures x !in JavaString.Join(parts, sep)
    decreases |parts|
  {
    if |parts| > 1 {
      JoinAvoids(parts[1..], sep, x);
    }
  }

  /** A cron expression "0 m h * * ?" yields its hour and minute fields. */
  lemma CronRoundTrip(hour: nat, minute: nat)
    requires hour < 24 && minute < 60
    ensures var t := JavaString.Join(["0", JavaString.Decimal(minute), JavaString.Decimal(hour), "*", "*", "?"], ' ');
      ParseHourFromTime(t) == hour && ParseMinuteFromTime(t) == minute
  {
    CronDigitFields(JavaString.Decimal(minute), JavaString.Decimal(hour));
  }

  /** The minute and hour fields of "0 m h * * ?", written in digits, are read as their values. */
  lemma CronDigitFields(m: string, h: string)
    requires |m| > 0 && JavaString.AllDigits(m) && JavaString.DigitsValue(m) < 60
    requires |h| > 0 && JavaString.AllDigits(h) && JavaString.DigitsValue(h) < 24
    ensures var t := JavaString.Join(["0", m, h, "*", "*", "?"], ' ');
      ParseHourFromTime(t) == JavaString.DigitsValue(h) && ParseMinuteFromTime(t) == JavaString.DigitsValue(m)
  {
    DigitsAvoid(m, ' ');
    DigitsAvoid(h, ' ');
    DigitsAvoid(m, ':');
    DigitsAvoid(h, ':');
    var fields := ["0", m, h, "*", "*", "?"];
    forall i | 0 <= i < |fields|
      ensures ' ' !in fields[i] && ':' !in fields[i]
    {
      assert fields[i] in {"0", m, h, "*", "?"};
    }
    CronFieldsSplit(fields);
    JavaString.ParseDecimalOfDigits(m, JavaString.IntMin, JavaString.IntMax);
    JavaString.ParseDecimalOfDigits(h, JavaString.IntMin, JavaString.IntMax);
    assert fields[1] == m && fields[2] == h;
  }

  /** Space-separated fields free of ':' and ' ' are read as a cron expression: hour and minute come
      from the third and second field. */
  lemma CronFieldsSplit(fields: seq<string>)
    requires |fields| >= 2 && fields[|fields| - 1] != ""
    requires forall i :: 0 <= i < |fields| ==> ' ' !in fields[i] && ':' !in fields[i]
    ensures ParseHourFromTime(JavaString.Join(fields, ' ')) == IntFieldOr(fields, 2, DefaultHour)
    ensures ParseMinuteFromTime(JavaString.Join(fields, ' ')) == IntFieldOr(fields, 1, DefaultMinute)
  {
    var t := JavaString.Join(fields, ' ');
    JoinAvoids(fields, ' ', ':');
    JavaString.ContainsChar(t, ':');
    JavaString.SplitJoin(fields, ' ');
  }

  /** A single word, neither "HH:mm" nor a cron expression (say "daily"), falls back to 04:00. */
  lemma SingleWordFallsBack(word: string)
    requires ':' !in word && ' ' !in word
    ensures ParseHourFromTime(word) == DefaultHour && ParseMinuteFromTime(word) == DefaultMinute
  {
    JavaString.ContainsChar(word, ':');
  }

  /* ---------------------------------------------------------------- delay until the next run */

  datatype DelayError = HourOutOfRange | MinuteOutOfRange

  /** `calculateInitialDelay`: today's time with the configured hour and minute, seconds set to zero and
      the sub-second part of now kept; tomorrow's if that is already past. `withHour`/`withMinute` throw
      for an hour outside 0..23 or a minute outside 0..59. */
  function InitialDelay(msOfDay: int, hour: int, minute: int): (r: Result<int, DelayError>)
    requires 0 <= msOfDay < MillisPerDay
    ensures r.Failure? <==> !(0 <= hour < 24 && 0 <= minute < 60)
    ensures r.Success? ==> 0 <= r.value < MillisPerDay && r.value % 1000 == 0
    ensures r.Success? ==>
      (msOfDay + r.value) % MillisPerDay == hour * MillisPerHour + minute * MillisPerMinute + msOfDay % 1000
    ensures r.Success? ==>
      (r.value == 0 <==> msOfDay == hour * MillisPerHour + minute * MillisPerMinute + msOfDay % 1000)
  {
    if !(0 <= hour < 24) then Failure(HourOutOfRange)
    else if !(0 <= minute < 60) then Failure(MinuteOutOfRange)
    else
      var target := hour * MillisPerHour + minute * MillisPerMinute + msOfDay % 1000;
      var next := if msOfDay > target then target + MillisPerDay else target;
      Success(next - msOfDay)
  }

  /** No other delay in a day reaches the configured time: the one computed is the next occurrence. */
  lemma InitialDelayIsNext(msOfDay: int, hour: int, minute: int, d: int)
    requires 0 <= msOfDay < MillisPerDay && 0 <= hour < 24 && 0 <= minute < 60
    requires 0 <= d < MillisPerDay
    requires (msOfDay + d) % MillisPerDay == hour * MillisPerHour + minute * MillisPerMinute + msOfDay % 1000
    ensures InitialDelay(msOfDay, hour, minute) == Success(d)
  {
    var r := InitialDelay(msOfDay, hour, minute).value;
    var target := hour * MillisPerHour + minute * MillisPerMinute + msOfDay % 1000;
    assert 0 <= target < MillisPerDay;
    assert msOfDay + d == target || msOfDay + d == target + MillisPerDay;
    assert msOfDay + r == target || msOfDay + r == target + MillisPerDay;
  }

  /* ---------------------------------------------------------------- notification offsets */

  datatype OffsetError = BadNumber | BadSuffix

  /** `parseTimeToMillis`: lower-cased, "Nh" is N hours and "Nm" N minutes in `long` arithmetic; any other
      ending is refused, and so is a count `Long.parseLong` refuses. */
  function ParseTimeToMillis(timeStr: string): (r: Result<int, OffsetError>)
    ensures r.Success? ==> JavaString.LongMin <= r.value <= JavaString.LongMax
  {
    var t := JavaString.ToLowerAscii(timeStr);
    if |t| > 0 && t[|t| - 1] == 'h' then
      match JavaString.ParseLong(t[..|t| - 1])
      case None => Failure(BadNumber)
      case Some(n) => Success(JavaString.Wrap64(JavaString.Wrap64(n * 3600) * 1000))
    else if |t| > 0 && t[|t| - 1] == 'm' then
      match JavaString.ParseLong(t[..|t| - 1])
      case None => Failure(BadNumber)
      case Some(n) => Success(JavaString.Wrap64(JavaString.Wrap64(n * 60) * 1000))
    else Failure(BadSuffix)
  }

  /** The milliseconds of `v` hours (unit 'h' or 'H') or minutes (any other unit). */
  function Millis(v: int, unit: char): int {
    if unit == 'h' || unit == 'H' then v * 3_600_000 else v * 60_000
  }

  /** Only text ending in 'h', 'H', 'm' or 'M' gets past the unit check. */
  lemma OffsetSuffixRule(timeStr: string)
    ensures ParseTimeToMillis(timeStr) == Failure(BadSuffix)
      <==> |timeStr| == 0 || timeStr[|timeStr| - 1] !in "hHmM"
  {
    var t := JavaString.ToLowerAscii(timeStr);
    if |timeStr| > 0 {
      assert t[|t| - 1] == 'h' <==> timeStr[|timeStr| - 1] in "hH";
      assert t[|t| - 1] == 'm' <==> timeStr[|timeStr| - 1] in "mM";
    }
  }

  /** Lower-casing a count followed by a unit letter lower-cases only the unit. */
  lemma LowerCount(d: string, unit: char, lower: char)
    requires JavaString.AllDigits(d)
    requires (unit == 'H' && lower == 'h') || (unit == 'M' && lower == 'm') || (unit == lower && unit in "hm")
    ensures JavaString.ToLowerAscii(d + [unit]) == d + [lower]
  {
    var s := d + [unit];
    var t := JavaString.ToLowerAscii(s);
    assert forall i :: 0 <= i < |d| ==> s[i] == d[i];
    assert s[|d|] == unit;
  }

  /** A count `Long.parseLong` reads as `v`, followed by a lower-case unit, reads as `v` hours or
      minutes (no wrap-around for counts up to a million). */
  lemma CountReads(count: string, unit: char, v: int)
    requires unit == 'h' || unit == 'm'
    requires JavaString.ToLowerAscii(count + [unit]) == count + [unit]
    requires JavaString.ParseLong(count) == Some(v) && -1_000_000 <= v <= 1_000_000
    ensures ParseTimeToMillis(count + [unit]) == Success(Millis(v, unit))
  {
    var s := count + [unit];
    assert s[..|s| - 1] == count;
    if unit == 'h' {
      assert JavaString.Wrap64(v * 3600) == v * 3600;
      assert JavaString.Wrap64(v * 3600 * 1000) == v * 3_600_000;
    } else {
      assert JavaString.Wrap64(v * 60) == v * 60;
      assert JavaString.Wrap64(v * 60 * 1000) == v * 60_000;
    }
  }

  /** A count followed by a lower-case unit reads as that many hours or minutes. */
  lemma LowerOffsetReads(d: string, unit: char)
    requires |d| > 0 && JavaString.AllDigits(d) && JavaString.DigitsValue(d) <= 1_000_000
    requires unit == 'h' || unit == 'm'
    ensures ParseTimeToMillis(d + [unit]) == Success(Millis(JavaString.DigitsValue(d), unit))
  {
    LowerCount(d, unit, unit);
    JavaString.ParseDecimalOfDigits(d, JavaString.LongMin, JavaString.LongMax);
    CountReads(d, unit, JavaString.DigitsValue(d));
  }

  /** "Nh" and "NH" read as N hours, "Nm" and "NM" as N minutes. */
  lemma OffsetRoundTrip(n: nat, unit: char)
    requires n <= 1_000_000
    requires unit in "hHmM"
    ensures ParseTimeToMillis(JavaString.Decimal(n) + [unit]) == Success(Millis(n, unit))
  {
    var d := JavaString.Decimal(n);
    var lower := if unit == 'H' then 'h' else if unit == 'M' then 'm' else unit;
    UnitCaseIgnored(d, unit, lower);
    LowerOffsetReads(d, lower);
  }

  /** An upper-case unit letter reads as its lower-case form. */
  lemma UnitCaseIgnored(d: string, unit: char, lower: char)
    requires JavaString.AllDigits(d)
    requires (unit == 'H' && lower == 'h') || (unit == 'M' && lower == 'm') || (unit == lower && unit in "hm")
    ensures ParseTimeToMillis(d + [unit]) == ParseTimeToMillis(d + [lower])
  {
    LowerCount(d, unit, lower);
    LowerCount(d, lower, lower);
    SameLowerSameMillis(d + [unit], d + [lower]);
  }

  /** `parseTimeToMillis` sees only the lower-cased text. */
  lemma SameLowerSameMillis(a: string, b: string)
    requires JavaString.ToLowerAscii(a) == JavaString.ToLowerAscii(b)
    ensures ParseTimeToMillis(a) == ParseTimeToMillis(b)
  {
  }

  /** A bare number, or one with another unit, is refused. */
  lemma OffsetNeedsUnit()
    ensures ParseTimeToMillis("30").Failure?
    ensures ParseTimeToMillis("30s") == Failure(BadSuffix)
    ensures ParseTimeToMillis("h") == Failure(BadNumber)
  {
    assert JavaString.ToLowerAscii("h") == "h";
  }

  /* ---------------------------------------------------------------- scheduled pass */

  datatype Category = Manual | Daily | Weekly | Monthly

  /** The directory name of a category. */
  function CategoryName(c: Category): string {
    match c
    case Manual => "manual"
    case Daily => "daily"
    case Weekly => "weekly"
    case Monthly => "monthly"
  }

  datatype DayOfWeek = Monday | Tuesday | Wednesday | Thursday | Friday | Saturday | Sunday

  /** The backup settings the scheduler reads. */
  datatype BackupConfig = BackupConfig(
    enabled: bool,
    dailyEnabled: bool, weeklyEnabled: bool, monthlyEnabled: bool,
    dailyMax: JavaString.Int32, weeklyMax: JavaString.Int32, monthlyMax: JavaString.Int32,
    backupTime: string,
    enableRestartNotifications: bool,
    notificationTimes: string,
    notificationTemplate: string)

  function Rank(c: Category): nat {
    match c
    case Manual => 0
    case Daily => 1
    case Weekly => 2
    case Monthly => 3
  }

  /** The categories a scheduled pass creates, in the order it creates them. */
  function ScheduledCategories(cfg: BackupConfig, day: DayOfWeek, dayOfMonth: nat): (r: seq<Category>)
    ensures Daily in r <==> cfg.dailyEnabled
    ensures Weekly in r <==> cfg.weeklyEnabled && day == Sunday
    ensures Monthly in r <==> cfg.monthlyEnabled && dayOfMonth == 1
    ensures Manual !in r
    ensures forall i, j :: 0 <= i < j < |r| ==> Rank(r[i]) < Rank(r[j])
  {
    (if cfg.dailyEnabled then [Daily] else [])
    + (if cfg.weeklyEnabled && day == Sunday then [Weekly] else [])
    + (if cfg.monthlyEnabled && dayOfMonth == 1 then [Monthly] else [])
  }

  function MaxBackups(cfg: BackupConfig, c: Category): JavaString.Int32 {
    match c
    case Daily => cfg.dailyMax
    case Weekly => cfg.weeklyMax
    case Monthly => cfg.monthlyMax
    case Manual => 0
  }

  /** How `createBackup` ended for a category: its future completed, completed exceptionally, or an
      unchecked exception escaped `createBackup` itself (possible only while the server is stopped,
      where the archive is written on the caller's thread and only `IOException` is caught). */
  datatype Attempt = Created | Failed | Thrown

  /** What a scheduled pass does, in order. */
  datatype PassStep =
    | CreateBackup(c: Category)
    | CleanupOld(c: Category, max: JavaString.Int32)
    | WarnFailed(c: Category)
    | AllCompleted
    | SomeFailed

  /** The chain of `performScheduledBackups`: each category's create-then-cleanup has its own
      `exceptionally`, so its failure is reported and the chain goes on; only an exception thrown while
      composing the chain skips the remaining categories and reaches the final `exceptionally`. */
  function PassFrom(cfg: BackupConfig, cats: seq<Category>, attempt: Category -> Attempt,
                    cleanupOk: Category -> bool): (r: seq<PassStep>)
    ensures |r| >= 1 && (r[|r| - 1] == AllCompleted || r[|r| - 1] == SomeFailed)
  {
    if |cats| == 0 then [AllCompleted]
    else
      var c := cats[0];
      match attempt(c)
      case Thrown => [CreateBackup(c), SomeFailed]
      case Failed => CategorySteps(cfg, c, false, true) + PassFrom(cfg, cats[1..], attempt, cleanupOk)
      case Created => CategorySteps(cfg, c, true, cleanupOk(c)) + PassFrom(cfg, cats[1..], attempt, cleanupOk)
  }

  /** One category's part of the chain: create it; when that worked, clean up beyond its maximum; warn
      when either stage failed. Neither stage ends the pass. */
  function CategorySteps(cfg: BackupConfig, c: Category, created: bool, cleanupOk: bool): (r: seq<PassStep>)
    ensures Attempted(r) == [c]
    ensures AllCompleted !in r && SomeFailed !in r
    ensures WarnFailed(c) in r <==> !created || !cleanupOk
    ensures CleanupOld(c, MaxBackups(cfg, c)) in r <==> created
  {
    var r := if !created then [CreateBackup(c), WarnFailed(c)]
             else [CreateBackup(c), CleanupOld(c, MaxBackups(cfg, c))] + (if cleanupOk then [] else [WarnFailed(c)]);
    assert Attempted(r) == [c] by {
      var tail := r[1..];
      assert forall i :: 0 <= i < |tail| ==> !tail[i].CreateBackup?;
      NothingAttempted(tail);
    }
    r
  }

  /** The scheduled pass for one day: the day's categories in order, ending with one overall report;
      when no category throws, every one of them is attempted and the report is completion. */
  function ScheduledPass(cfg: BackupConfig, day: DayOfWeek, dayOfMonth: nat, attempt: Category -> Attempt,
                         cleanupOk: Category -> bool): (r: seq<PassStep>)
    ensures |r| >= 1 && (r[|r| - 1] == AllCompleted || r[|r| - 1] == SomeFailed)
    ensures var cats := ScheduledCategories(cfg, day, dayOfMonth);
      (forall i :: 0 <= i < |cats| ==> attempt(cats[i]) != Thrown) ==>
        Attempted(r) == cats && r[|r| - 1] == AllCompleted && SomeFailed !in r
  {
    PassOver(cfg, ScheduledCategories(cfg, day, dayOfMonth), attempt, cleanupOk)
  }

  /** The pass over a list of categories, with what it reports. */
  function PassOver(cfg: BackupConfig, cats: seq<Category>, attempt: Category -> Attempt,
                    cleanupOk: Category -> bool): (r: seq<PassStep>)
    ensures |r| >= 1 && (r[|r| - 1] == AllCompleted || r[|r| - 1] == SomeFailed)
    ensures (forall i :: 0 <= i < |cats| ==> attempt(cats[i]) != Thrown) ==>
      Attempted(r) == cats && r[|r| - 1] == AllCompleted && SomeFailed !in r
  {
    CompletedUnlessThrown(cfg, cats, attempt, cleanupOk);
    PassFrom(cfg, cats, attempt, cleanupOk)
  }

  /** The pass from a list of categories completes with every one attempted unless one throws. */
  lemma CompletedUnlessThrown(cfg: BackupConfig, cats: seq<Category>, attempt: Category -> Attempt,
                              cleanupOk: Category -> bool)
    ensures (forall i :: 0 <= i < |cats| ==> attempt(cats[i]) != Thrown) ==>
      var r := PassFrom(cfg, cats, attempt, cleanupOk);
      Attempted(r) == cats && r[|r| - 1] == AllCompleted && SomeFailed !in r
  {
    if forall i :: 0 <= i < |cats| ==> attempt(cats[i]) != Thrown {
      PassAttemptsEveryCategory(cfg, cats, attempt, cleanupOk);
    }
  }

  /** The categories a pass tried to create, in order. */
  function Attempted(steps: seq<PassStep>): seq<Category> {
    if |steps| == 0 then []
    else (if steps[0].CreateBackup? then [steps[0].c] else []) + Attempted(steps[1..])
  }

  lemma {:induction false} NothingAttempted(steps: seq<PassStep>)
    requires forall i :: 0 <= i < |steps| ==> !steps[i].CreateBackup?
    ensures Attempted(steps) == []
    decreases |steps|
  {
    if |steps| > 0 {
      NothingAttempted(steps[1..]);
    }
  }

  lemma {:induction false} AttemptedConcat(a: seq<PassStep>, b: seq<PassStep>)
    ensures Attempted(a + b) == Attempted(a) + Attempted(b)
    decreases |a|
  {
    if |a| > 0 {
      assert (a + b)[1..] == a[1..] + b;
      AttemptedConcat(a[1..], b);
    } else {
      assert a + b == b;
    }
  }

  /** When no category throws while the chain is composed, every category is attempted in order and
      the pass reports completion, never failure. */
  lemma {:induction false} PassAttemptsEveryCategory(cfg: BackupConfig, cats: seq<Category>,
                                                    attempt: Category -> Attempt, cleanupOk: Category -> bool)
    requires forall i :: 0 <= i < |cats| ==> attempt(cats[i]) != Thrown
    ensures var r := PassFrom(cfg, cats, attempt, cleanupOk);
      Attempted(r) == cats && r[|r| - 1] == AllCompleted && SomeFailed !in r
    decreases |cats|
  {
    if |cats| > 0 {
      var c := cats[0];
      var rest := PassFrom(cfg, cats[1..], attempt, cleanupOk);
      PassAttemptsEveryCategory(cfg, cats[1..], attempt, cleanupOk);
      var head := PassFromStep(cfg, cats, attempt, cleanupOk);
      AttemptedConcat(head, rest);
      assert cats == [c] + cats[1..];
    }
  }

  /** One category that does not throw contributes its own steps and hands over to the rest. */
  lemma PassFromStep(cfg: BackupConfig, cats: seq<Category>, attempt: Category -> Attempt,
                     cleanupOk: Category -> bool) returns (head: seq<PassStep>)
    requires |cats| > 0 && attempt(cats[0]) != Thrown
    ensures head == CategorySteps(cfg, cats[0], attempt(cats[0]) == Created, attempt(cats[0]) == Failed || cleanupOk(cats[0]))
    ensures PassFrom(cfg, cats, attempt, cleanupOk) == head + PassFrom(cfg, cats[1..], attempt, cleanupOk)
  {
    head := CategorySteps(cfg, cats[0], attempt(cats[0]) == Created, attempt(cats[0]) == Failed || cleanupOk(cats[0]));
  }

  /** An exception escaping `createBackup` for one category ends the pass there: the later categories
      are never attempted and the pass reports that some backups failed. */
  lemma {:induction false} ThrownStopsPass(cfg: BackupConfig, cats: seq<Category>, k: nat,
                                          attempt: Category -> Attempt, cleanupOk: Category -> bool)
    requires k < |cats| && attempt(cats[k]) == Thrown
    requires forall i :: 0 <= i < k ==> attempt(cats[i]) != Thrown
    ensures var r := PassFrom(cfg, cats, attempt, cleanupOk);
      Attempted(r) == cats[..k + 1] && r[|r| - 1] == SomeFailed
    decreases k
  {
    var c := cats[0];
    if k == 0 {
      AttemptedConcat([CreateBackup(c)], [SomeFailed]);
      assert [CreateBackup(c), SomeFailed] == [CreateBackup(c)] + [SomeFailed];
    } else {
      assert attempt(c) != Thrown;
      assert forall i :: 0 <= i < k - 1 ==> cats[1..][i] == cats[i + 1];
      var rest := PassFrom(cfg, cats[1..], attempt, cleanupOk);
      ThrownStopsPass(cfg, cats[1..], k - 1, attempt, cleanupOk);
      var head := PassFromStep(cfg, cats, attempt, cleanupOk);
      AttemptedConcat(head, rest);
      PrefixOfTail(cats, k);
    }
  }

  lemma PrefixOfTail<T>(s: seq<T>, k: nat)
    requires 0 < k < |s|
    ensures s[..k + 1] == [s[0]] + s[1..][..k]
  {
    assert forall i :: 1 <= i <= k ==> s[i] == s[1..][i - 1];
  }

  /** A Sunday that is also the first of the month, with everything enabled and nothing thrown: daily,
      weekly and monthly backups, in that order. */
  lemma FirstSundayRunsAllThree(cfg: BackupConfig, attempt: Category -> Attempt, cleanupOk: Category -> bool)
    requires cfg.dailyEnabled && cfg.weeklyEnabled && cfg.monthlyEnabled
    requires attempt(Daily) != Thrown && attempt(Weekly) != Thrown && attempt(Monthly) != Thrown
    ensures Attempted(ScheduledPass(cfg, Sunday, 1, attempt, cleanupOk)) == [Daily, Weekly, Monthly]
  {
    var cats := ScheduledCategories(cfg, Sunday, 1);
    assert cats == [Daily, Weekly, Monthly];
    PassAttemptsEveryCategory(cfg, cats, attempt, cleanupOk);
  }

  /* ---------------------------------------------------------------- restart notifications */

  /** A scheduled notification: it fires `delayMs` after it is armed and then sends `Command`. */
  datatype NotificationTask = NotificationTask(id: nat, delayMs: int, template: string, timeText: string, done: bool)

  /** `notificationTasks` and a source of fresh task ids. */
  datatype Notifier = Notifier(tasks: seq<NotificationTask>, nextId: nat)

  /** The ids of the tasks `cancelPendingNotifications` cancels: those not yet done, in list order. */
  function PendingIds(tasks: seq<NotificationTask>): (r: seq<nat>)
    ensures forall id :: id in r <==> exists i :: 0 <= i < |tasks| && !tasks[i].done && tasks[i].id == id
  {
    if |tasks| == 0 then []
    else
      var rest := PendingIds(tasks[1..]);
      assert forall i :: 1 <= i < |tasks| ==> tasks[i] == tasks[1..][i - 1];
      (if !tasks[0].done then [tasks[0].id] else []) + rest
  }

  /** The template with every "{time}" replaced by the offset text, sent as a `say` command. */
  function NotificationCommand(template: string, timeText: string): string {
    "say " + JavaString.Replace(template, "{time}", timeText)
  }

  /** What the task sends to the server console when it fires. */
  function Command(t: NotificationTask): string {
    NotificationCommand(t.template, t.timeText)
  }

  /** A template with one "{time}" says its text around the offset, as written in the offset list;
      other braces in the template, such as "{server}", are said as they are. */
  lemma NotificationNamesOffset(before: string, after: string, timeText: string)
    requires forall k :: !JavaString.OccursAt(before, "{time}", k)
    requires forall k :: !JavaString.OccursAt(after, "{time}", k)
    ensures NotificationCommand(before + "{time}" + after, timeText) == "say " + before + timeText + after
  {
    JavaString.ReplaceAfterFreeHead(before, "{time}", timeText, after);
    JavaString.ReplaceAbsent(after, "{time}", timeText);
  }

  /** A template without "{time}" is said as it is. */
  lemma PlainTemplateSaidAsIs(template: string, timeText: string)
    requires forall k :: !JavaString.OccursAt(template, "{time}", k)
    ensures NotificationCommand(template, timeText) == "say " + template
  {
    JavaString.ReplaceAbsent(template, "{time}", timeText);
  }

  /** One entry of the comma-separated offset list: its trimmed text and what `parseTimeToMillis`
      made of it. */
  datatype Offset = Offset(text: string, millis: Result<int, OffsetError>)

  function ReadOffset(raw: string): Offset {
    var t := JavaString.Trim(raw);
    Offset(t, ParseTimeToMillis(t))
  }

  function ReadOffsets(times: seq<string>): (r: seq<Offset>)
    ensures |r| == |times|
    ensures forall i :: 0 <= i < |times| ==> r[i] == ReadOffset(times[i])
  {
    seq(|times|, i requires 0 <= i < |times| => ReadOffset(times[i]))
  }

  /** An offset is armed when it parsed to a positive number of milliseconds. */
  predicate Arms(o: Offset) {
    o.millis.Success? && o.millis.value > 0
  }

  /** The task for an armed offset: it fires that long before the restart and says the template with
      the offset's text in it. The delay is the `long` difference of the time left until the restart
      and the offset, so it wraps when the offset is more than `Long.MAX_VALUE` past the time left. */
  function TaskFor(o: Offset, template: string, untilRestartMs: JavaString.Long, id: nat): (r: NotificationTask)
    requires Arms(o)
    ensures r.id == id && !r.done && r.template == template && r.timeText == o.text
    ensures JavaString.LongMin <= r.delayMs <= JavaString.LongMax
    ensures JavaString.LongMin <= untilRestartMs - o.millis.value ==> r.delayMs == untilRestartMs - o.millis.value
  {
    NotificationTask(id, JavaString.Wrap64(untilRestartMs - o.millis.value), template, o.text, false)
  }

  /** An offset so large that the `long` subtraction underflows wraps to a positive delay: the task
      fires long after the restart instead of at once. */
  lemma OverdueOffsetWraps(o: Offset, template: string, untilRestartMs: JavaString.Long, id: nat)
    requires Arms(o) && o.millis.value <= JavaString.LongMax
    requires untilRestartMs - o.millis.value < JavaString.LongMin
    ensures TaskFor(o, template, untilRestartMs, id).delayMs > 0
  {
    var x := untilRestartMs - o.millis.value;
    var m := 0x1_0000_0000_0000_0000;
    assert -m < x - JavaString.LongMin < 0;
    assert (x - JavaString.LongMin) % m == x - JavaString.LongMin + m;
  }

  /** The armed offsets, in list order. */
  function ArmedOffsets(offsets: seq<Offset>): (r: seq<Offset>)
    ensures |r| <= |offsets|
    ensures forall i :: 0 <= i < |r| ==> Arms(r[i])
  {
    if |offsets| == 0 then []
    else (if Arms(offsets[0]) then [offsets[0]] else []) + ArmedOffsets(offsets[1..])
  }

  /** Every armed offset is one of the list's. */
  lemma {:induction false} ArmedAreFromList(offsets: seq<Offset>)
    ensures forall i :: 0 <= i < |ArmedOffsets(offsets)| ==> ArmedOffsets(offsets)[i] in offsets
    decreases |offsets|
  {
    if |offsets| > 0 {
      ArmedAreFromList(offsets[1..]);
      var rest := ArmedOffsets(offsets[1..]);
      var skip := if Arms(offsets[0]) then 1 else 0;
      assert forall i :: skip <= i < |ArmedOffsets(offsets)| ==> ArmedOffsets(offsets)[i] == rest[i - skip];
    }
  }

  /** No armed offset of the list is dropped. */
  lemma {:induction false} ArmedKeepsEvery(offsets: seq<Offset>)
    ensures forall j :: 0 <= j < |offsets| && Arms(offsets[j]) ==> offsets[j] in ArmedOffsets(offsets)
    decreases |offsets|
  {
    if |offsets| > 0 {
      ArmedKeepsEvery(offsets[1..]);
      assert forall j :: 1 <= j < |offsets| ==> offsets[j] == offsets[1..][j - 1];
    }
  }

  /** The tasks for a list of armed offsets, under consecutive ids from `nextId`. */
  function TasksFor(armed: seq<Offset>, template: string, untilRestartMs: JavaString.Long, nextId: nat): (r: seq<NotificationTask>)
    requires forall i :: 0 <= i < |armed| ==> Arms(armed[i])
    ensures |r| == |armed|
    ensures forall i :: 0 <= i < |r| ==> r[i] == TaskFor(armed[i], template, untilRestartMs, nextId + i)
    decreases |armed|
  {
    if |armed| == 0 then []
    else
      var rest := TasksFor(armed[1..], template, untilRestartMs, nextId + 1);
      var r := [TaskFor(armed[0], template, untilRestartMs, nextId)] + rest;
      assert forall i :: 1 <= i < |r| ==> r[i] == rest[i - 1] && armed[i] == armed[1..][i - 1];
      r
  }

  /** The loop of `scheduleRestartNotifications`: one task per armed offset, in list order, under
      consecutive fresh ids; the other offsets are skipped. */
  function ArmOffsets(offsets: seq<Offset>, template: string, untilRestartMs: JavaString.Long, nextId: nat): (r: seq<NotificationTask>)
    ensures |r| <= |offsets|
    ensures forall i :: 0 <= i < |r| ==> r[i].id == nextId + i && !r[i].done
  {
    TasksFor(ArmedOffsets(offsets), template, untilRestartMs, nextId)
  }

  /** Every armed task comes from an armed offset of the list: it fires that offset's time before the
      restart and names the offset's text. */
  lemma ArmOffsetsSound(offsets: seq<Offset>, template: string, untilRestartMs: JavaString.Long, nextId: nat, i: nat)
    requires i < |ArmOffsets(offsets, template, untilRestartMs, nextId)|
    ensures exists o ::
      o in offsets && Arms(o) && ArmOffsets(offsets, template, untilRestartMs, nextId)[i] == TaskFor(o, template, untilRestartMs, nextId + i)
  {
    var armed := ArmedOffsets(offsets);
    ArmedAreFromList(offsets);
    assert armed[i] in offsets && Arms(armed[i]);
  }

  /** Every armed offset of the list gets a task. */
  lemma ArmOffsetsComplete(offsets: seq<Offset>, template: string, untilRestartMs: JavaString.Long, nextId: nat, o: Offset)
    requires o in offsets && Arms(o)
    ensures exists i ::
      0 <= i < |ArmOffsets(offsets, template, untilRestartMs, nextId)| && ArmOffsets(offsets, template, untilRestartMs, nextId)[i] == TaskFor(o, template, untilRestartMs, nextId + i)
  {
    var armed := ArmedOffsets(offsets);
    ArmedKeepsEvery(offsets);
    assert o in armed;
    var i :| 0 <= i < |armed| && armed[i] == o;
    assert ArmOffsets(offsets, template, untilRestartMs, nextId)[i] == TaskFor(o, template, untilRestartMs, nextId + i);
  }

  /** The tasks armed for the entries of the offset list, trimmed and read one by one. */
  function EntryTasks(times: seq<string>, template: string, untilRestartMs: JavaString.Long, nextId: nat): seq<NotificationTask> {
    ArmOffsets(ReadOffsets(times), template, untilRestartMs, nextId)
  }

  /** Every task armed for a list of entries belongs to an entry that reads as a positive offset: it
      fires that offset before the restart and names the entry's trimmed text. */
  lemma EntryTasksFromEntries(times: seq<string>, template: string, untilRestartMs: JavaString.Long, nextId: nat, i: nat) returns (k: nat)
    requires i < |EntryTasks(times, template, untilRestartMs, nextId)|
    ensures k < |times| && Arms(ReadOffset(times[k]))
    ensures EntryTasks(times, template, untilRestartMs, nextId)[i] == TaskFor(ReadOffset(times[k]), template, untilRestartMs, nextId + i)
  {
    var offsets := ReadOffsets(times);
    ArmOffsetsSound(offsets, template, untilRestartMs, nextId, i);
    var o :| o in offsets && Arms(o) && ArmOffsets(offsets, template, untilRestartMs, nextId)[i] == TaskFor(o, template, untilRestartMs, nextId + i);
    k :| 0 <= k < |offsets| && offsets[k] == o;
  }

  /** Every entry that reads as a positive offset gets its task. */
  lemma EntryTasksCoverEntries(times: seq<string>, template: string, untilRestartMs: JavaString.Long, nextId: nat, k: nat) returns (i: nat)
    requires k < |times| && Arms(ReadOffset(times[k]))
    ensures i < |EntryTasks(times, template, untilRestartMs, nextId)|
    ensures EntryTasks(times, template, untilRestartMs, nextId)[i] == TaskFor(ReadOffset(times[k]), template, untilRestartMs, nextId + i)
  {
    var offsets := ReadOffsets(times);
    var o := ReadOffset(times[k]);
    assert offsets[k] == o;
    var tasks := ArmOffsets(offsets, template, untilRestartMs, nextId);
    ArmOffsetsComplete(offsets, template, untilRestartMs, nextId, o);
    i :| 0 <= i < |tasks| && tasks[i] == TaskFor(o, template, untilRestartMs, nextId + i);
  }

  /** `scheduleRestartNotifications`: cancels and forgets the pending tasks first; then, only when both
      restart notifications and backups are enabled, arms the tasks for the comma-separated offsets
      (see `EntryTasksFromEntries` and `EntryTasksCoverEntries` for which tasks those are). */
  function ScheduleRestartNotifications(n: Notifier, cfg: BackupConfig, untilRestartMs: JavaString.Long): (r: (Notifier, seq<nat>))
    ensures r.1 == PendingIds(n.tasks)
    ensures !cfg.enableRestartNotifications || !cfg.enabled ==> r.0.tasks == []
    ensures cfg.enableRestartNotifications && cfg.enabled ==>
      r.0.tasks == EntryTasks(JavaString.Split(cfg.notificationTimes, ','), cfg.notificationTemplate, untilRestartMs, n.nextId)
    ensures forall i :: 0 <= i < |r.0.tasks| ==> !r.0.tasks[i].done && r.0.tasks[i].id >= n.nextId
    ensures forall i :: 0 <= i < |r.0.tasks| ==> r.0.tasks[i].id < r.0.nextId
  {
    var cancelled := PendingIds(n.tasks);
    if !cfg.enableRestartNotifications || !cfg.enabled then (Notifier([], n.nextId), cancelled)
    else
      var armed := EntryTasks(JavaString.Split(cfg.notificationTimes, ','), cfg.notificationTemplate, untilRestartMs, n.nextId);
      (Notifier(armed, n.nextId + |armed|), cancelled)
  }

  /** An entry written as a positive count and a unit, with any blanks in front, reads as that many
      hours or minutes, under its trimmed text. */
  lemma ReadCountOffset(blanks: string, n: nat, unit: char)
    requires forall i :: 0 <= i < |blanks| ==> JavaString.IsBlank(blanks[i])
    requires n <= 1_000_000 && unit in "hHmM"
    ensures var word := JavaString.Decimal(n) + [unit];
      ReadOffset(blanks + word) == Offset(word, Success(Millis(n, unit)))
  {
    var d := JavaString.Decimal(n);
    var word := d + [unit];
    assert forall i :: 0 <= i < |word| ==> !JavaString.IsBlank(word[i]) by {
      assert forall i :: 0 <= i < |d| ==> word[i] == d[i] && JavaString.IsDigit(d[i]);
    }
    JavaString.TrimBlankPrefix(blanks, word);
    OffsetRoundTrip(n, unit);
  }

  /** An entry whose trimmed text does not end in a unit letter is refused. */
  lemma ReadNeedsUnit(raw: string)
    requires var t := JavaString.Trim(raw); |t| == 0 || t[|t| - 1] !in "hHmM"
    ensures ReadOffset(raw).millis == Failure(BadSuffix)
  {
    OffsetSuffixRule(JavaString.Trim(raw));
  }

  /** Lower-casing a minus sign, digits and a lower-case unit changes nothing. */
  lemma LowerSigned(d: string, unit: char)
    requires JavaString.AllDigits(d) && (unit == 'h' || unit == 'm')
    ensures JavaString.ToLowerAscii("-" + d + [unit]) == "-" + d + [unit]
  {
    var s := "-" + d + [unit];
    var t := JavaString.ToLowerAscii(s);
    assert forall i :: 1 <= i <= |d| ==> s[i] == d[i - 1];
  }

  /** A negative count reads as a negative offset, which is not armed. */
  lemma NegativeOffsetNotArmed(n: nat, unit: char)
    requires 1 <= n <= 1_000_000 && (unit == 'h' || unit == 'm')
    ensures var word := "-" + JavaString.Decimal(n) + [unit];
      ParseTimeToMillis(word) == Success(Millis(-(n as int), unit)) && Millis(-(n as int), unit) < 0
      && !Arms(ReadOffset(word))
  {
    var d := JavaString.Decimal(n);
    NegativeCountReads(d, unit, -(n as int));
    SignedWordHasNoBlank(d, unit);
  }

  /** A minus sign, digits and a unit letter: nothing for `trim` to remove. */
  lemma SignedWordHasNoBlank(d: string, unit: char)
    requires JavaString.AllDigits(d) && (unit == 'h' || unit == 'm')
    ensures var word := "-" + d + [unit];
      JavaString.Trim(word) == word
  {
    var word := "-" + d + [unit];
    assert forall i :: 1 <= i <= |d| ==> word[i] == d[i - 1] && JavaString.IsDigit(d[i - 1]);
    assert forall i :: 0 <= i < |word| ==> !JavaString.IsBlank(word[i]);
  }

  /** The milliseconds a negative count of hours or minutes reads as. */
  lemma NegativeCountReads(d: string, unit: char, v: int)
    requires |d| > 0 && JavaString.AllDigits(d) && JavaString.DigitsValue(d) <= 1_000_000
    requires unit == 'h' || unit == 'm'
    requires v == -(JavaString.DigitsValue(d) as int)
    ensures ParseTimeToMillis("-" + d + [unit]) == Success(Millis(v, unit))
  {
    NegatedLong(d, v);
    LowerSigned(d, unit);
    CountReads("-" + d, unit, v);
  }

  /** A minus sign and digits read as the negated count. */
  lemma NegatedLong(d: string, v: int)
    requires |d| > 0 && JavaString.AllDigits(d) && JavaString.DigitsValue(d) <= 1_000_000
    requires v == -(JavaString.DigitsValue(d) as int)
    ensures JavaString.ParseLong("-" + d) == Some(v)
  {
    JavaString.ParseDecimalOfNegated(d, JavaString.LongMin, JavaString.LongMax);
  }

  /** When every offset is armed, the tasks follow the list one for one. */
  lemma {:induction false} AllArmed(offsets: seq<Offset>, template: string, untilRestartMs: JavaString.Long, nextId: nat)
    requires forall i :: 0 <= i < |offsets| ==> Arms(offsets[i])
    ensures ArmedOffsets(offsets) == offsets
    ensures ArmOffsets(offsets, template, untilRestartMs, nextId) == TasksFor(offsets, template, untilRestartMs, nextId)
    decreases |offsets|
  {
    if |offsets| > 0 {
      AllArmed(offsets[1..], template, untilRestartMs, nextId);
      assert offsets == [offsets[0]] + offsets[1..];
    }
  }

  /** Each entry is written as a positive count (up to a million) followed by a unit letter. */
  predicate CountWords(words: seq<string>, counts: seq<nat>, units: seq<char>) {
    && |words| == |counts| == |units|
    && forall i :: 0 <= i < |words| ==>
         1 <= counts[i] <= 1_000_000 && units[i] in "hHmM" && words[i] == JavaString.Decimal(counts[i]) + [units[i]]
  }

  /** A list of entries each written as a positive count and a unit arms one task per entry, in list
      order, each firing its own offset before the restart; an offset longer than the time left gives
      a negative delay, so that task fires at once. */
  lemma CountsArmInOrder(words: seq<string>, counts: seq<nat>, units: seq<char>, template: string,
                         untilRestartMs: JavaString.Long, nextId: nat)
    requires CountWords(words, counts, units)
    ensures |ArmOffsets(ReadOffsets(words), template, untilRestartMs, nextId)| == |words|
    ensures forall i :: 0 <= i < |words| ==>
      ArmOffsets(ReadOffsets(words), template, untilRestartMs, nextId)[i]
        == NotificationTask(nextId + i, JavaString.Wrap64(untilRestartMs - Millis(counts[i], units[i])), template, words[i], false)
  {
    CountWordsArm(words, counts, units);
    ArmedTexts(ReadOffsets(words), words, counts, units, template, untilRestartMs, nextId);
  }

  /** Offsets that all parsed to positive milliseconds arm one task each, in list order. */
  lemma ArmedTexts(offsets: seq<Offset>, words: seq<string>, counts: seq<nat>, units: seq<char>, template: string,
                   untilRestartMs: JavaString.Long, nextId: nat)
    requires |offsets| == |words| == |counts| == |units|
    requires forall i :: 0 <= i < |offsets| ==>
      offsets[i] == Offset(words[i], Success(Millis(counts[i], units[i]))) && Millis(counts[i], units[i]) > 0
    ensures |ArmOffsets(offsets, template, untilRestartMs, nextId)| == |words|
    ensures forall i :: 0 <= i < |words| ==>
      ArmOffsets(offsets, template, untilRestartMs, nextId)[i]
        == NotificationTask(nextId + i, JavaString.Wrap64(untilRestartMs - Millis(counts[i], units[i])), template, words[i], false)
  {
    AllArmed(offsets, template, untilRestartMs, nextId);
  }

  /** Entries written as positive counts and units read as their own texts and milliseconds, all armed. */
  lemma CountWordsArm(words: seq<string>, counts: seq<nat>, units: seq<char>)
    requires CountWords(words, counts, units)
    ensures forall i :: 0 <= i < |words| ==>
      ReadOffsets(words)[i] == Offset(words[i], Success(Millis(counts[i], units[i]))) && Millis(counts[i], units[i]) > 0
  {
    forall i | 0 <= i < |words|
      ensures ReadOffset(words[i]) == Offset(words[i], Success(Millis(counts[i], units[i])))
      ensures Millis(counts[i], units[i]) > 0
    {
      CountWordArms(counts[i], units[i]);
    }
  }

  /** One positive count and a unit: the entry reads as its own text and milliseconds, and is armed. */
  lemma CountWordArms(n: nat, unit: char)
    requires 1 <= n <= 1_000_000 && unit in "hHmM"
    ensures var word := JavaString.Decimal(n) + [unit];
      ReadOffset(word) == Offset(word, Success(Millis(n, unit))) && Arms(ReadOffset(word))
  {
    var word := JavaString.Decimal(n) + [unit];
    ReadCountOffset("", n, unit);
    assert "" + word == word;
  }

}
