/** The files `BackupService` keeps in each category directory: how an archive is named, which
    directory entries count as backups, which of them retention deletes, the order `listBackups`
    reports them in, what an archive holds and what restoring one writes back. A directory is its
    listing (names with their modification times, in the order the directory stream yields them) and
    a server tree is a map from relative paths to file contents; the clock is an input. */
module BackupStore {
  import opened Wrappers
  import JavaString
  import Sorting

  /* ---------------------------------------------------------------- archive names */

  /** The `LocalDateTime` that names an archive. */
  datatype DateTime = DateTime(year: nat, month: nat, day: nat, hour: nat, minute: nat, second: nat)

  /** Calendar fields in range, with a year that `yyyy` prints as exactly four digits. */
  predicate ValidStamp(t: DateTime) {
    && 1 <= t.year <= 9999 && 1 <= t.month <= 12 && 1 <= t.day <= 31
    && t.hour < 24 && t.minute < 60 && t.second < 60
  }

  /** `LocalDateTime` order: by date, then by time of day. */
  predicate Earlier(a: DateTime, b: DateTime) {
    || a.year < b.year
    || (a.year == b.year && a.month < b.month)
    || (a.year == b.year && a.month == b.month && a.day < b.day)
    || (a.year == b.year && a.month == b.month && a.day == b.day && a.hour < b.hour)
    || (a.year == b.year && a.month == b.month && a.day == b.day && a.hour == b.hour && a.minute < b.minute)
    || (a.year == b.year && a.month == b.month && a.day == b.day && a.hour == b.hour && a.minute == b.minute
        && a.second < b.second)
  }

  const Prefix := "backup_"
  const Suffix := ".zip"
  const NameLength := 26

  /** `yyyyMMdd_HHmmss` followed by `tail`, one field at a time. */
  function StampThen(t: DateTime, tail: string): string
    requires ValidStamp(t)
  {
    JavaString.Pad(t.year, 4) + (JavaString.Pad(t.month, 2) + (JavaString.Pad(t.day, 2) + ("_" +
      (JavaString.Pad(t.hour, 2) + (JavaString.Pad(t.minute, 2) + (JavaString.Pad(t.second, 2) + tail))))))
  }

  /** The file name `performBackupCreation` gives the archive it writes at time `t`. */
  function BackupName(t: DateTime): (r: string)
    requires ValidStamp(t)
    ensures |r| == NameLength && MatchesGlob(r)
  {
    var r := Prefix + StampThen(t, Suffix);
    assert r[..|Prefix|] == Prefix;
    assert r[|r| - |Suffix|..] == Suffix;
    r
  }

  /** The timestamp a well-formed archive name carries, read back field by field. */
  function ParseBackupName(name: string): (r: Option<DateTime>)
  {
    if |name| != NameLength || name[..|Prefix|] != Prefix then None
    else
      var s0 := name[|Prefix|..];
      var year, s1 := s0[..4], s0[4..];
      var month, s2 := s1[..2], s1[2..];
      var day, s3 := s2[..2], s2[2..];
      var separator, s4 := s3[..1], s3[1..];
      var hour, s5 := s4[..2], s4[2..];
      var minute, s6 := s5[..2], s5[2..];
      var second, rest := s6[..2], s6[2..];
      if && separator == "_" && rest == Suffix
         && JavaString.AllDigits(year) && JavaString.AllDigits(month) && JavaString.AllDigits(day)
         && JavaString.AllDigits(hour) && JavaString.AllDigits(minute) && JavaString.AllDigits(second)
      then
        Some(DateTime(JavaString.DigitsValue(year), JavaString.DigitsValue(month), JavaString.DigitsValue(day),
                      JavaString.DigitsValue(hour), JavaString.DigitsValue(minute), JavaString.DigitsValue(second)))
      else None
  }

  /** Reading the timestamp back out of an archive name gives the time it was named after. */
  lemma ParseBackupNameRoundTrip(t: DateTime)
    requires ValidStamp(t)
    ensures ParseBackupName(BackupName(t)) == Some(t)
  {
  }

  /** A padded field read back gives its spelling again. */
  lemma PadOfDigits(field: string)
    requires JavaString.AllDigits(field)
    ensures JavaString.DigitsValue(field) < JavaString.Pow10(|field|)
    ensures JavaString.Pad(JavaString.DigitsValue(field), |field|) == field
  {
    DigitsBelowPow10(field);
    JavaString.DigitsValueInjective(JavaString.Pad(JavaString.DigitsValue(field), |field|), field);
  }

  lemma {:induction false} DigitsBelowPow10(field: string)
    requires JavaString.AllDigits(field)
    ensures JavaString.DigitsValue(field) < JavaString.Pow10(|field|)
    decreases |field|
  {
    if |field| > 0 {
      DigitsBelowPow10(field[..|field| - 1]);
    }
  }

  /** Every name the parser accepts with an in-range timestamp is exactly the name of that timestamp:
      there is one spelling per archive time. */
  lemma ParsedNameIsCanonical(name: string, t: DateTime)
    requires ParseBackupName(name) == Some(t) && ValidStamp(t)
    ensures BackupName(t) == name
  {
    var s0 := name[|Prefix|..];
    var s1, s2, s3, s4, s5, s6 := s0[4..], s0[6..], s0[8..], s0[9..], s0[11..], s0[13..];
    assert s0[..4] == JavaString.Pad(t.year, 4) by { PadOfDigits(s0[..4]); }
    assert s1[..2] == JavaString.Pad(t.month, 2) by { PadOfDigits(s1[..2]); }
    assert s2[..2] == JavaString.Pad(t.day, 2) by { PadOfDigits(s2[..2]); }
    assert s4[..2] == JavaString.Pad(t.hour, 2) by { PadOfDigits(s4[..2]); }
    assert s5[..2] == JavaString.Pad(t.minute, 2) by { PadOfDigits(s5[..2]); }
    assert s6[..2] == JavaString.Pad(t.second, 2) by { PadOfDigits(s6[..2]); }
    assert s6 == s6[..2] + s6[2..];
    assert s5 == s5[..2] + s6;
    assert s4 == s4[..2] + s5;
    assert s3 == s3[..1] + s4;
    assert s2 == s2[..2] + s3;
    assert s1 == s1[..2] + s2;
    assert s0 == s0[..4] + s1;
    assert name == Prefix + s0;
  }

  /** Two archives written at different times never share a name. */
  lemma BackupNameInjective(a: DateTime, b: DateTime)
    requires ValidStamp(a) && ValidStamp(b)
    ensures BackupName(a) == BackupName(b) <==> a == b
  {
    ParseBackupNameRoundTrip(a);
    ParseBackupNameRoundTrip(b);
  }

  /** A fixed-width run of digits decides the order unless it ties, in which case what follows decides. */
  lemma DigitFieldOrder(px: string, py: string, rx: string, ry: string)
    requires |px| == |py| && JavaString.AllDigits(px) && JavaString.AllDigits(py)
    ensures JavaString.LexLess(px + rx, py + ry)
        <==> (JavaString.DigitsValue(px) < JavaString.DigitsValue(py)
              || (JavaString.DigitsValue(px) == JavaString.DigitsValue(py) && JavaString.LexLess(rx, ry)))
  {
    JavaString.LexLessConcat(px, rx, py, ry);
    JavaString.LexLessDigits(px, py);
    JavaString.DigitsValueInjective(px, py);
  }

  /** One zero-padded field decides the order unless it ties, in which case what follows decides. */
  lemma PaddedFieldOrder(x: nat, y: nat, width: nat, rx: string, ry: string)
    requires x < JavaString.Pow10(width) && y < JavaString.Pow10(width)
    ensures JavaString.LexLess(JavaString.Pad(x, width) + rx, JavaString.Pad(y, width) + ry)
        <==> x < y || (x == y && JavaString.LexLess(rx, ry))
  {
    DigitFieldOrder(JavaString.Pad(x, width), JavaString.Pad(y, width), rx, ry);
  }

  /** Three two-digit fields before a common tail sort by their values, most significant first. */
  lemma TimeFieldsOrder(h1: string, m1: string, s1: string, h2: string, m2: string, s2: string, tail: string)
    requires |h1| == |h2| && |m1| == |m2| && |s1| == |s2|
    requires JavaString.AllDigits(h1) && JavaString.AllDigits(m1) && JavaString.AllDigits(s1)
    requires JavaString.AllDigits(h2) && JavaString.AllDigits(m2) && JavaString.AllDigits(s2)
    ensures JavaString.LexLess(h1 + (m1 + (s1 + tail)), h2 + (m2 + (s2 + tail)))
        <==> (|| JavaString.DigitsValue(h1) < JavaString.DigitsValue(h2)
              || (JavaString.DigitsValue(h1) == JavaString.DigitsValue(h2)
                  && JavaString.DigitsValue(m1) < JavaString.DigitsValue(m2))
              || (JavaString.DigitsValue(h1) == JavaString.DigitsValue(h2)
                  && JavaString.DigitsValue(m1) == JavaString.DigitsValue(m2)
                  && JavaString.DigitsValue(s1) < JavaString.DigitsValue(s2)))
  {
    JavaString.LexLessIrreflexive(tail);
    DigitFieldOrder(s1, s2, tail, tail);
    DigitFieldOrder(m1, m2, s1 + tail, s2 + tail);
    DigitFieldOrder(h1, h2, m1 + (s1 + tail), m2 + (s2 + tail));
  }

  /** A common head leaves the order to what follows it. */
  lemma CommonHeadOrder(head: string, rx: string, ry: string)
    ensures JavaString.LexLess(head + rx, head + ry) <==> JavaString.LexLess(rx, ry)
  {
    JavaString.LexLessConcat(head, rx, head, ry);
    JavaString.LexLessIrreflexive(head);
  }

  /** `HHmmss` followed by `tail`: the time-of-day part of `StampThen`. */
  function TimeThen(t: DateTime, tail: string): string
    requires ValidStamp(t)
  {
    JavaString.Pad(t.hour, 2) + (JavaString.Pad(t.minute, 2) + (JavaString.Pad(t.second, 2) + tail))
  }

  /** The time-of-day part of `Earlier`, for two stamps on the same date. */
  predicate EarlierInDay(a: DateTime, b: DateTime) {
    || a.hour < b.hour
    || (a.hour == b.hour && a.minute < b.minute)
    || (a.hour == b.hour && a.minute == b.minute && a.second < b.second)
  }

  /** The `HHmmss` part of two names sorts as the times of day do. */
  lemma TimeOrder(a: DateTime, b: DateTime)
    requires ValidStamp(a) && ValidStamp(b)
    ensures JavaString.LexLess(TimeThen(a, Suffix), TimeThen(b, Suffix)) <==> EarlierInDay(a, b)
  {
    TimeFieldsOrder(JavaString.Pad(a.hour, 2), JavaString.Pad(a.minute, 2), JavaString.Pad(a.second, 2),
      JavaString.Pad(b.hour, 2), JavaString.Pad(b.minute, 2), JavaString.Pad(b.second, 2), Suffix);
  }

  /** Three fixed-width digit fields sort by their values, most significant first, and then by
      what follows them. */
  lemma DateFieldsOrder(y1: string, o1: string, d1: string, y2: string, o2: string, d2: string,
                        ta: string, tb: string)
    requires |y1| == |y2| && |o1| == |o2| && |d1| == |d2|
    requires JavaString.AllDigits(y1) && JavaString.AllDigits(o1) && JavaString.AllDigits(d1)
    requires JavaString.AllDigits(y2) && JavaString.AllDigits(o2) && JavaString.AllDigits(d2)
    ensures JavaString.LexLess(y1 + (o1 + (d1 + ta)), y2 + (o2 + (d2 + tb)))
        <==> (|| JavaString.DigitsValue(y1) < JavaString.DigitsValue(y2)
              || (&& JavaString.DigitsValue(y1) == JavaString.DigitsValue(y2)
                  && (|| JavaString.DigitsValue(o1) < JavaString.DigitsValue(o2)
                      || (&& JavaString.DigitsValue(o1) == JavaString.DigitsValue(o2)
                          && (|| JavaString.DigitsValue(d1) < JavaString.DigitsValue(d2)
                              || (JavaString.DigitsValue(d1) == JavaString.DigitsValue(d2)
                                  && JavaString.LexLess(ta, tb)))))))
  {
    DigitFieldOrder(d1, d2, ta, tb);
    DigitFieldOrder(o1, o2, d1 + ta, d2 + tb);
    DigitFieldOrder(y1, y2, o1 + (d1 + ta), o2 + (d2 + tb));
  }

  /** Archive names sort as their timestamps do: `compareTo` on two names is chronological order. */
  lemma NameOrderIsTimeOrder(a: DateTime, b: DateTime)
    requires ValidStamp(a) && ValidStamp(b)
    ensures JavaString.LexLess(BackupName(a), BackupName(b)) <==> Earlier(a, b)
  {
    TimeOrder(a, b);
    DateFieldsOrder(JavaString.Pad(a.year, 4), JavaString.Pad(a.month, 2), JavaString.Pad(a.day, 2),
      JavaString.Pad(b.year, 4), JavaString.Pad(b.month, 2), JavaString.Pad(b.day, 2),
      "_" + TimeThen(a, Suffix), "_" + TimeThen(b, Suffix));
    CommonHeadOrder("_", TimeThen(a, Suffix), TimeThen(b, Suffix));
    CommonHeadOrder(Prefix, StampThen(a, Suffix), StampThen(b, Suffix));
  }

  /* ---------------------------------------------------------------- the backup_*.zip filter */

  /** The directory-stream glob `backup_*.zip`: the fixed prefix and suffix around any (possibly empty)
      middle. */
  predicate MatchesGlob(name: string) {
    |name| >= |Prefix| + |Suffix| && name[..|Prefix|] == Prefix && name[|name| - |Suffix|..] == Suffix
  }

  /** A directory entry: its file name and its modification time in milliseconds, `None` when reading
      that time fails. */
  datatype BackupFile = BackupFile(name: string, mtime: Option<int>)

  /** The entries the glob lets through, in listing order. */
  function Matching(listing: seq<BackupFile>): (r: seq<BackupFile>)
    ensures |r| <= |listing|
    ensures forall i :: 0 <= i < |r| ==> MatchesGlob(r[i].name)
    ensures forall f :: multiset(r)[f] == if MatchesGlob(f.name) then multiset(listing)[f] else 0
  {
    if |listing| == 0 then []
    else
      assert listing == [listing[0]] + listing[1..];
      (if MatchesGlob(listing[0].name) then [listing[0]] else []) + Matching(listing[1..])
  }

  function Names(files: seq<BackupFile>): (r: seq<string>)
    ensures |r| == |files| && forall i :: 0 <= i < |files| ==> r[i] == files[i].name
  {
    seq(|files|, i requires 0 <= i < |files| => files[i].name)
  }

  /* ---------------------------------------------------------------- retention */

  /** The sort key of `cleanupOldBackups`: the modification time, 0 when it cannot be read. */
  function AgeKey(f: BackupFile): int {
    f.mtime.GetOr(0)
  }

  /** `Comparator.comparingLong` on `AgeKey`: oldest first. */
  predicate ByAge(a: BackupFile, b: BackupFile) {
    AgeKey(a) <= AgeKey(b)
  }

  datatype CleanupError =
    | DirectoryMissing   // the directory stream cannot be opened
    | IndexOutOfBounds   // the deletion loop ran past the end of the list

  /** What retention did: the backups it deleted in deletion order, the ones it left (oldest first
      once sorting happened) and how it ended. */
  datatype Retention = Retention(deleted: seq<BackupFile>, kept: seq<BackupFile>, error: Option<CleanupError>)

  /** The deletion loop over the sorted backups: indices below `excess` go, in order; an `excess`
      beyond the list deletes everything and then fails on the first missing index. */
  function DeleteOldest(sorted: seq<BackupFile>, excess: int): (r: Retention)
    requires Sorting.Sorted(sorted, ByAge)
    ensures multiset(r.deleted) + multiset(r.kept) == multiset(sorted)
    ensures forall i, j :: 0 <= i < |r.deleted| && 0 <= j < |r.kept| ==> AgeKey(r.deleted[i]) <= AgeKey(r.kept[j])
    ensures excess <= 0 ==> r == Retention([], sorted, None)
    ensures 0 < excess <= |sorted| ==> |r.deleted| == excess && r.error.None?
    ensures |sorted| < excess ==> r == Retention(sorted, [], Some(IndexOutOfBounds))
  {
    if excess <= 0 then Retention([], sorted, None)
    else if excess <= |sorted| then
      assert sorted == sorted[..excess] + sorted[excess..];
      Retention(sorted[..excess], sorted[excess..], None)
    else Retention(sorted, [], Some(IndexOutOfBounds))
  }

  /** `size - maxBackups` in `int` arithmetic, for a size a Java list can have: a difference past
      `Integer.MAX_VALUE` wraps to a negative count. */
  function Excess(size: nat, maxBackups: JavaString.Int32): (r: int)
    requires size <= JavaString.IntMax
    ensures size - maxBackups as int <= JavaString.IntMax ==> r == size - maxBackups as int
    ensures size - maxBackups as int > JavaString.IntMax ==> r < 0 && r == JavaString.Wrap32(size - maxBackups as int)
  {
    var d := size - maxBackups as int;
    if d <= JavaString.IntMax then d else d - 0x1_0000_0000
  }

  /** The body of `cleanupOldBackups` once the directory stream has produced `backups`: nothing
      happens within the limit; past it the backups are sorted oldest first and the loop deletes the
      indices below `size - maxBackups`. A Java list holds at most `Integer.MAX_VALUE` elements. */
  function Retain(backups: seq<BackupFile>, maxBackups: JavaString.Int32): (r: Retention)
    requires |backups| <= JavaString.IntMax
    ensures multiset(r.deleted) + multiset(r.kept) == multiset(backups)
    ensures forall i, j :: 0 <= i < |r.deleted| && 0 <= j < |r.kept| ==> AgeKey(r.deleted[i]) <= AgeKey(r.kept[j])
    ensures |backups| <= maxBackups as int ==> r == Retention([], backups, None)
    ensures 0 <= maxBackups as int < |backups| ==>
      |r.kept| == maxBackups as int && |r.deleted| == |backups| - maxBackups as int && r.error.None?
    ensures r.error != Some(DirectoryMissing)
  {
    if |backups| <= maxBackups as int then Retention([], backups, None)
    else
      assert Sorting.TotalPreorder(ByAge);
      var sorted := Sorting.Sort(backups, ByAge);
      assert |sorted| == |backups| by {
        assert |multiset(sorted)| == |multiset(backups)|;
      }
      DeleteOldest(sorted, Excess(|backups|, maxBackups))
  }

  /** `cleanupOldBackups(type, maxBackups)` on the category directory's listing, `None` when the
      directory does not exist. Only names matching `backup_*.zip` take part. */
  function CleanupOldBackups(listing: Option<seq<BackupFile>>, maxBackups: JavaString.Int32): (r: Retention)
    requires listing.Some? ==> |listing.value| <= JavaString.IntMax
    ensures r.error == Some(DirectoryMissing) <==> listing.None?
    ensures listing.None? ==> r.deleted == [] && r.kept == []
    ensures listing.Some? ==> r == Retain(Matching(listing.value), maxBackups)
  {
    if listing.None? then Retention([], [], Some(DirectoryMissing))
    else Retain(Matching(listing.value), maxBackups)
  }

  /** A negative limit deletes every backup and then fails on the index one past the end. */
  lemma NegativeLimitDeletesAll(listing: seq<BackupFile>, maxBackups: JavaString.Int32)
    requires |listing| <= JavaString.IntMax
    requires maxBackups < 0 && 0 < |Matching(listing)| <= JavaString.IntMax + maxBackups as int
    ensures CleanupOldBackups(Some(listing), maxBackups).kept == []
    ensures multiset(CleanupOldBackups(Some(listing), maxBackups).deleted) == multiset(Matching(listing))
    ensures CleanupOldBackups(Some(listing), maxBackups).error == Some(IndexOutOfBounds)
  {
  }

  /** When `size - maxBackups` overflows (a limit near `Integer.MIN_VALUE`), nothing is deleted. */
  lemma OverflowingLimitDeletesNothing(listing: seq<BackupFile>, maxBackups: JavaString.Int32)
    requires |listing| <= JavaString.IntMax
    requires |Matching(listing)| - maxBackups as int > JavaString.IntMax
    ensures CleanupOldBackups(Some(listing), maxBackups).deleted == []
    ensures CleanupOldBackups(Some(listing), maxBackups).error.None?
  {
  }

  /* ---------------------------------------------------------------- listing */

  /** `Comparator.reverseOrder()` on names: `a` may precede `b` unless `a < b`. */
  predicate NewestFirst(a: string, b: string) {
    !JavaString.LexLess(a, b)
  }

  lemma NewestFirstIsTotalPreorder()
    ensures Sorting.TotalPreorder(NewestFirst)
  {
    forall a: string, b: string
      ensures NewestFirst(a, b) || NewestFirst(b, a)
    {
      if JavaString.LexLess(a, b) {
        JavaString.LexLessAsymmetric(a, b);
      }
    }
    forall a: string, b: string, c: string | NewestFirst(a, b) && NewestFirst(b, c)
      ensures NewestFirst(a, c)
    {
      JavaString.LexLessTotal(a, b);
      JavaString.LexLessTotal(b, c);
      if a != b && b != c {
        JavaString.LexLessTransitive(c, b, a);
        JavaString.LexLessAsymmetric(c, a);
      }
    }
  }

  /** `listBackups(type)`: the names matching `backup_*.zip`, each as often as it is listed, in
      reverse lexicographic order; nothing when the directory does not exist. */
  function ListBackups(listing: Option<seq<BackupFile>>): (r: seq<string>)
    ensures listing.None? ==> r == []
    ensures listing.Some? ==> multiset(r) == multiset(Names(Matching(listing.value)))
    ensures forall i, j :: 0 <= i < j < |r| ==> !JavaString.LexLess(r[i], r[j])
    ensures forall i :: 0 <= i < |r| ==> MatchesGlob(r[i])
  {
    if listing.None? then []
    else
      NewestFirstIsTotalPreorder();
      var names := Names(Matching(listing.value));
      var r := Sorting.Sort(names, NewestFirst);
      assert forall i :: 0 <= i < |r| ==> r[i] in multiset(names);
      r
  }

  /** For archives named by `performBackupCreation`, the listing puts the most recent first. */
  lemma ListedNewestFirst(listing: seq<BackupFile>, i: nat, j: nat, a: DateTime, b: DateTime)
    requires ValidStamp(a) && ValidStamp(b)
    requires i < j < |ListBackups(Some(listing))|
    requires ListBackups(Some(listing))[i] == BackupName(a) && ListBackups(Some(listing))[j] == BackupName(b)
    ensures !Earlier(a, b)
  {
    NameOrderIsTimeOrder(a, b);
  }

  /* ---------------------------------------------------------------- archive contents */

  /** Raw file contents. */
  type Bytes = seq<bv8>

  /** One path of `Files.walk(serverDir)`: its components relative to the server directory (the
      empty path is the server directory itself), whether it is a directory, and a file's contents. */
  datatype WalkedPath = WalkedPath(path: seq<string>, isDirectory: bool, data: Bytes)

  datatype ZipEntry = ZipEntry(name: string, data: Bytes)

  /** `Path.startsWith`: a component-wise prefix. */
  predicate StartsWith(path: seq<string>, prefix: seq<string>) {
    |prefix| <= |path| && path[..|prefix|] == prefix
  }

  /** `serverDir.relativize(path).toString()`: the components joined by the platform separator. */
  function RelativeString(path: seq<string>, separator: char): string {
    if |path| == 0 then "" else JavaString.Join(path, separator)
  }

  /** The entry name of a file: its relative path with every backslash turned into a slash. */
  function EntryName(path: seq<string>, separator: char): string {
    JavaString.Replace(RelativeString(path, separator), "\\", "/")
  }

  /** The two filters of `performBackupCreation`: regular files only, and nothing under the backup
      directory. `backupDir` is that directory relative to the server directory, or `None` when it is
      not inside it. `None` stands for a directory beside the server directory, which excludes
      nothing. A backup directory that contains the server directory would exclude every file, and
      is not modelled. */
  predicate Archived(w: WalkedPath, backupDir: Option<seq<string>>) {
    !w.isDirectory && !(backupDir.Some? && StartsWith(w.path, backupDir.value))
  }

  /** Files go into the archive in walk order. A file whose entry name was already written makes
      `putNextEntry` throw a `ZipException`, which the per-file handler reports and skips. */
  function ArchiveFrom(walk: seq<WalkedPath>, backupDir: Option<seq<string>>, separator: char,
                       written: set<string>): (r: seq<ZipEntry>)
    ensures forall i :: 0 <= i < |r| ==> r[i].name !in written
    ensures forall i, j :: 0 <= i < j < |r| ==> r[i].name != r[j].name
    decreases |walk|
  {
    if |walk| == 0 then []
    else
      var w := walk[0];
      if !Archived(w, backupDir) then ArchiveFrom(walk[1..], backupDir, separator, written)
      else
        var name := EntryName(w.path, separator);
        if name in written then ArchiveFrom(walk[1..], backupDir, separator, written)
        else
          var rest := ArchiveFrom(walk[1..], backupDir, separator, written + {name});
          assert forall i :: 1 <= i < |rest| + 1 ==> ([ZipEntry(name, w.data)] + rest)[i] == rest[i - 1];
          [ZipEntry(name, w.data)] + rest
  }

  /** The entries of the archive `performBackupCreation` writes, for a server-directory walk. */
  function Archive(walk: seq<WalkedPath>, backupDir: Option<seq<string>>, separator: char): (r: seq<ZipEntry>)
    ensures forall i, j :: 0 <= i < j < |r| ==> r[i].name != r[j].name
  {
    ArchiveFrom(walk, backupDir, separator, {})
  }

  function EntryNames(entries: seq<ZipEntry>): set<string> {
    set i | 0 <= i < |entries| :: entries[i].name
  }

  /** Every entry comes from a walked regular file outside the backup directory and carries that
      file's name and contents. */
  lemma {:induction false} ArchiveEntrySource(walk: seq<WalkedPath>, backupDir: Option<seq<string>>, separator: char,
                                              written: set<string>, i: nat) returns (k: nat)
    requires i < |ArchiveFrom(walk, backupDir, separator, written)|
    ensures k < |walk| && Archived(walk[k], backupDir)
    ensures ArchiveFrom(walk, backupDir, separator, written)[i] == ZipEntry(EntryName(walk[k].path, separator), walk[k].data)
    decreases |walk|
  {
    var w := walk[0];
    var name := EntryName(w.path, separator);
    if !Archived(w, backupDir) || name in written {
      k := ArchiveEntrySource(walk[1..], backupDir, separator, written, i);
      k := k + 1;
    } else if i == 0 {
      k := 0;
    } else {
      k := ArchiveEntrySource(walk[1..], backupDir, separator, written + {name}, i - 1);
      k := k + 1;
    }
  }

  /** Every walked regular file outside the backup directory has an entry under its name, unless that
      name was written before. */
  lemma {:induction false} ArchiveCoversFile(walk: seq<WalkedPath>, backupDir: Option<seq<string>>, separator: char,
                                             written: set<string>, k: nat)
    requires k < |walk| && Archived(walk[k], backupDir)
    ensures EntryName(walk[k].path, separator) in written + EntryNames(ArchiveFrom(walk, backupDir, separator, written))
    decreases |walk|
  {
    var w := walk[0];
    var name := EntryName(w.path, separator);
    var r := ArchiveFrom(walk, backupDir, separator, written);
    if !Archived(w, backupDir) || name in written {
      if k > 0 {
        ArchiveCoversFile(walk[1..], backupDir, separator, written, k - 1);
      }
    } else {
      var rest := ArchiveFrom(walk[1..], backupDir, separator, written + {name});
      assert r == [ZipEntry(name, w.data)] + rest;
      EntryNamesCons(ZipEntry(name, w.data), rest);
      if k > 0 {
        ArchiveCoversFile(walk[1..], backupDir, separator, written + {name}, k - 1);
      }
    }
  }

  /** The names of a non-empty entry list: the first one's and the rest's. */
  lemma EntryNamesCons(e: ZipEntry, rest: seq<ZipEntry>)
    ensures EntryNames([e] + rest) == {e.name} + EntryNames(rest)
  {
    var s := [e] + rest;
    assert s[0] == e;
    assert forall j :: 0 <= j < |rest| ==> s[j + 1] == rest[j];
  }

  /** A path component as a file system gives it back: non-empty, neither "." nor "..", and free of
      either separator. */
  predicate PortableComponent(c: string) {
    NamedPart(c) && c != ".." && '/' !in c && '\\' !in c
  }

  predicate PortablePath(path: seq<string>) {
    |path| >= 1 && forall i :: 0 <= i < |path| ==> PortableComponent(path[i])
  }

  /** With either platform separator, a file's entry name is its path joined by '/': archives written
      on Windows and on Unix name the same file alike. */
  lemma {:induction false} PortableEntryName(path: seq<string>, separator: char)
    requires separator == '/' || separator == '\\'
    requires PortablePath(path)
    ensures EntryName(path, separator) == JavaString.Join(path, '/')
    decreases |path|
  {
    var head := path[0];
    assert JavaString.Replace(head, "\\", "/") == head by {
      assert forall k :: JavaString.OccursAt(head, "\\", k) ==> head[k] == '\\';
      JavaString.ReplaceAbsent(head, "\\", "/");
    }
    if |path| > 1 {
      var rest := JavaString.Join(path[1..], separator);
      assert JavaString.Join(path, separator) == head + ([separator] + rest);
      JavaString.ReplaceCharConcat(head, [separator] + rest, '\\', "/");
      JavaString.ReplaceCharConcat([separator], rest, '\\', "/");
      JavaString.ReplaceCharSingle(separator, '\\', "/");
      PortableEntryName(path[1..], separator);
      assert JavaString.Join(path, '/') == head + (['/'] + JavaString.Join(path[1..], '/'));
    }
  }

  /** No entry name contains a backslash: on Unix, a file whose name has one is stored under the
      slash-separated name instead. */
  lemma EntryNameHasNoBackslash(path: seq<string>, separator: char)
    ensures '\\' !in EntryName(path, separator)
  {
    JavaString.ReplaceCharRemoves(RelativeString(path, separator), '\\', "/");
  }

  /* ---------------------------------------------------------------- restoring */

  /** A server directory: its regular files by relative path. */
  type Tree = map<seq<string>, Bytes>

  /** A path component that names a directory or file: not empty (left by a doubled or trailing
      slash) and not ".". */
  predicate NamedPart(part: string) {
    |part| > 0 && part != "."
  }

  /** The named parts in order: what the file system makes of a name with doubled or trailing slashes and
      "." components when the file is written. */
  function NamedParts(parts: seq<string>): (r: seq<string>)
    ensures forall i :: 0 <= i < |r| ==> NamedPart(r[i])
    ensures forall i :: 0 <= i < |r| ==> r[i] in parts
    ensures (forall i :: 0 <= i < |parts| ==> NamedPart(parts[i])) ==> r == parts
  {
    if |parts| == 0 then []
    else
      assert parts == [parts[0]] + parts[1..];
      (if NamedPart(parts[0]) then [parts[0]] else []) + NamedParts(parts[1..])
  }

  /** `tempDir.resolve(name)` for a relative name, as a path under the temporary directory. */
  function ResolveEntry(name: string): seq<string> {
    NamedParts(JavaString.SplitAll(name, '/'))
  }

  /** A name starting with '/': `resolve` returns it unchanged, outside the temporary directory. */
  predicate AbsoluteName(name: string) {
    |name| > 0 && name[0] == '/'
  }

  /** `ZipEntry.isDirectory`: the name ends in '/'. */
  predicate IsDirectoryEntry(name: string) {
    |name| > 0 && name[|name| - 1] == '/'
  }

  /** Where extraction puts an entry inside the temporary directory: nowhere for a directory entry,
      for an absolute name (written outside it, so the copy-back walk never sees it), or for a name
      that resolves to the temporary directory itself; else the resolved path. */
  function FileTarget(e: ZipEntry): (r: Option<seq<string>>)
    ensures AbsoluteName(e.name) || IsDirectoryEntry(e.name) ==> r.None?
    ensures r.Some? ==> |r.value| > 0 && forall i :: 0 <= i < |r.value| ==> NamedPart(r.value[i]) && '/' !in r.value[i]
    ensures r.Some? ==> r.value == ResolveEntry(e.name)
  {
    var p := ResolveEntry(e.name);
    if AbsoluteName(e.name) || IsDirectoryEntry(e.name) || |p| == 0 then None else Some(p)
  }

  /** A "." component names no directory: "a/./b" is written, and restored, at a/b. */
  lemma DotPartDropped(a: string, b: string, data: Bytes)
    requires PortableComponent(a) && PortableComponent(b)
    ensures FileTarget(ZipEntry(a + "/./" + b, data)) == Some([a, b])
  {
    var name := a + "/./" + b;
    SplitAroundDot(a, b);
    assert NamedParts([a, ".", b]) == [a, b] by {
      assert [a, ".", b][1..] == [".", b];
      assert [".", b][1..] == [b];
      assert [b][1..] == [];
    }
    assert name[0] == a[0];
    assert name[|name| - 1] == b[|b| - 1];
  }

  lemma SplitAroundDot(a: string, b: string)
    requires '/' !in a && '/' !in b
    ensures JavaString.SplitAll(a + "/./" + b, '/') == [a, ".", b]
  {
    JavaString.SplitAllField(".", '/', b);
    assert "./" + b == "." + ['/'] + b;
    JavaString.SplitAllField(a, '/', "./" + b);
    assert a + "/./" + b == a + ['/'] + ("./" + b);
  }

  /** An entry whose name starts with '/' is written outside the temporary directory, so nothing of it
      reaches the server directory. */
  lemma AbsoluteEntryNotRestored(entries: seq<ZipEntry>, i: nat)
    requires i < |entries| && AbsoluteName(entries[i].name)
    ensures FileTarget(entries[i]).None?
    ensures forall p :: p in Extracted(entries) ==> exists j :: 0 <= j < |entries| && j != i && FileTarget(entries[j]) == Some(p)
  {
    forall p | p in Extracted(entries)
      ensures exists j :: 0 <= j < |entries| && j != i && FileTarget(entries[j]) == Some(p)
    {
      var j := ExtractedFromEntry(entries, FileTarget, p);
    }
  }

  /** Writing the entries in order into an empty directory, each to its target, a later entry
      replacing an earlier one at the same place. */
  function ExtractInto<K>(entries: seq<ZipEntry>, target: ZipEntry -> Option<K>): (r: map<K, Bytes>)
    ensures forall i :: 0 <= i < |entries| && target(entries[i]).Some? ==> target(entries[i]).value in r
    ensures forall k :: k in r ==> exists i :: 0 <= i < |entries| && target(entries[i]) == Some(k)
    decreases |entries|
  {
    if |entries| == 0 then map[]
    else
      var e := entries[|entries| - 1];
      var before := ExtractInto(entries[..|entries| - 1], target);
      if target(e).None? then before else before[target(e).value := e.data]
  }

  /** The temporary directory after extraction. */
  function Extracted(entries: seq<ZipEntry>): map<seq<string>, Bytes> {
    ExtractInto(entries, FileTarget)
  }

  /** A file entry that no later entry overwrites is what extraction leaves at its target. */
  lemma {:induction false} ExtractedLastWins<K>(entries: seq<ZipEntry>, target: ZipEntry -> Option<K>, i: nat)
    requires i < |entries| && target(entries[i]).Some?
    requires forall j :: i < j < |entries| ==> target(entries[j]) != target(entries[i])
    ensures target(entries[i]).value in ExtractInto(entries, target)
    ensures ExtractInto(entries, target)[target(entries[i]).value] == entries[i].data
    decreases |entries|
  {
    var n := |entries| - 1;
    if i < n {
      var earlier := entries[..n];
      assert earlier[i] == entries[i];
      assert forall j :: i < j < n ==> earlier[j] == entries[j];
      ExtractedLastWins(earlier, target, i);
    }
  }

  /** Every extracted file comes from an entry that targets it. */
  lemma {:induction false} ExtractedFromEntry<K>(entries: seq<ZipEntry>, target: ZipEntry -> Option<K>, p: K)
    returns (i: nat)
    requires p in ExtractInto(entries, target)
    ensures i < |entries| && target(entries[i]) == Some(p)
    decreases |entries|
  {
    var n := |entries| - 1;
    if target(entries[n]) == Some(p) {
      i := n;
    } else {
      i := ExtractedFromEntry(entries[..n], target, p);
    }
  }

  datatype RestoreError = BackupNotFound

  /** `performBackupRestoration`: a missing archive fails before anything is touched; otherwise the
      extracted files are copied over the server directory, replacing files at the same paths and
      leaving every other file as it was. */
  function RestoreBackup(server: Tree, archive: Option<seq<ZipEntry>>): (r: Result<Tree, RestoreError>)
    ensures archive.None? <==> r == Failure(BackupNotFound)
    ensures archive.Some? ==> r.Success? && r.value.Keys == server.Keys + Extracted(archive.value).Keys
    ensures archive.Some? ==> forall p :: p in Extracted(archive.value) ==> r.value[p] == Extracted(archive.value)[p]
    ensures archive.Some? ==> forall p :: p in server && p !in Extracted(archive.value) ==> r.value[p] == server[p]
  {
    if archive.None? then Failure(BackupNotFound) else Success(server + Extracted(archive.value))
  }

  /* ---------------------------------------------------------------- backup then restore */

  /** The walk of a real directory: file paths made of portable components, none listed twice. */
  predicate WellFormedWalk(walk: seq<WalkedPath>) {
    && (forall k :: 0 <= k < |walk| && !walk[k].isDirectory ==> PortablePath(walk[k].path))
    && (forall k, l :: 0 <= k < l < |walk| && !walk[k].isDirectory && !walk[l].isDirectory ==>
          walk[k].path != walk[l].path)
  }

  lemma {:induction false} JoinEndsWithLast(parts: seq<string>, c: char)
    requires |parts| >= 1 && |parts[|parts| - 1]| > 0
    ensures |JavaString.Join(parts, c)| > 0
    ensures JavaString.Join(parts, c)[|JavaString.Join(parts, c)| - 1] == parts[|parts| - 1][|parts[|parts| - 1]| - 1]
    decreases |parts|
  {
    if |parts| > 1 {
      JoinEndsWithLast(parts[1..], c);
    }
  }

  lemma JoinStartsWithFirst(parts: seq<string>, c: char)
    requires |parts| >= 1 && |parts[0]| > 0
    ensures |JavaString.Join(parts, c)| > 0 && JavaString.Join(parts, c)[0] == parts[0][0]
  {
    if |parts| > 1 {
      assert JavaString.Join(parts, c) == parts[0] + ([c] + JavaString.Join(parts[1..], c));
    }
  }

  /** The slash-joined name of a portable path is a file entry that resolves back to the path. */
  lemma ResolvesBack(path: seq<string>)
    requires PortablePath(path)
    ensures ResolveEntry(JavaString.Join(path, '/')) == path
    ensures !IsDirectoryEntry(JavaString.Join(path, '/')) && !AbsoluteName(JavaString.Join(path, '/'))
  {
    JavaString.SplitAllJoin(path, '/');
    JoinEndsWithLast(path, '/');
    JoinStartsWithFirst(path, '/');
  }

  /** An entry of an archive of a well-formed walk names, as a file entry, the path of the file it
      holds. */
  lemma ArchivedEntry(walk: seq<WalkedPath>, backupDir: Option<seq<string>>, separator: char, i: nat)
    returns (k: nat)
    requires separator == '/' || separator == '\\'
    requires WellFormedWalk(walk) && i < |Archive(walk, backupDir, separator)|
    ensures k < |walk| && Archived(walk[k], backupDir)
    ensures Archive(walk, backupDir, separator)[i].name == EntryName(walk[k].path, separator)
    ensures Archive(walk, backupDir, separator)[i].data == walk[k].data
    ensures FileTarget(Archive(walk, backupDir, separator)[i]) == Some(walk[k].path)
  {
    k := ArchiveEntrySource(walk, backupDir, separator, {}, i);
    PortableEntryName(walk[k].path, separator);
    ResolvesBack(walk[k].path);
  }

  /** Restoring a freshly written archive puts every archived file back with the contents it had. */
  lemma RestoreRecoversArchivedFile(server: Tree, walk: seq<WalkedPath>, backupDir: Option<seq<string>>,
                                    separator: char, k: nat)
    requires separator == '/' || separator == '\\'
    requires WellFormedWalk(walk) && k < |walk| && Archived(walk[k], backupDir)
    ensures RestoreBackup(server, Some(Archive(walk, backupDir, separator))).Success?
    ensures walk[k].path in RestoreBackup(server, Some(Archive(walk, backupDir, separator))).value
    ensures RestoreBackup(server, Some(Archive(walk, backupDir, separator))).value[walk[k].path] == walk[k].data
  {
    var entries := Archive(walk, backupDir, separator);
    var path := walk[k].path;
    ArchiveCoversFile(walk, backupDir, separator, {}, k);
    var i :| 0 <= i < |entries| && entries[i].name == EntryName(path, separator);
    var source := ArchivedEntry(walk, backupDir, separator, i);
    assert source == k by {
      PortableEntryName(path, separator);
      ResolvesBack(path);
    }
    forall j | i < j < |entries|
      ensures FileTarget(entries[j]) != FileTarget(entries[i])
    {
      var l := ArchivedEntry(walk, backupDir, separator, j);
      assert EntryName(walk[l].path, separator) != EntryName(path, separator);
    }
    ExtractedLastWins(entries, FileTarget, i);
  }

  /** Every file a restore of such an archive writes is the path of an archived file. */
  lemma ExtractedAreArchivedFiles(walk: seq<WalkedPath>, backupDir: Option<seq<string>>, separator: char)
    requires separator == '/' || separator == '\\'
    requires WellFormedWalk(walk)
    ensures forall p :: p in Extracted(Archive(walk, backupDir, separator)) ==>
      exists k :: 0 <= k < |walk| && Archived(walk[k], backupDir) && walk[k].path == p
  {
    var entries := Archive(walk, backupDir, separator);
    forall p | p in Extracted(entries)
      ensures exists k :: 0 <= k < |walk| && Archived(walk[k], backupDir) && walk[k].path == p
    {
      var i := ExtractedFromEntry(entries, FileTarget, p);
      var k := ArchivedEntry(walk, backupDir, separator, i);
    }
  }

  /** Restoring such an archive leaves every other file of the server directory as it was, the
      backup directory's own archives included. */
  lemma RestoreKeepsOtherFiles(server: Tree, walk: seq<WalkedPath>, backupDir: Option<seq<string>>,
                               separator: char, q: seq<string>)
    requires separator == '/' || separator == '\\'
    requires WellFormedWalk(walk)
    requires forall k :: 0 <= k < |walk| && Archived(walk[k], backupDir) ==> walk[k].path != q
    ensures RestoreBackup(server, Some(Archive(walk, backupDir, separator))).Success?
    ensures q in RestoreBackup(server, Some(Archive(walk, backupDir, separator))).value <==> q in server
    ensures q in server ==> RestoreBackup(server, Some(Archive(walk, backupDir, separator))).value[q] == server[q]
  {
    ExtractedAreArchivedFiles(walk, backupDir, separator);
  }
}
