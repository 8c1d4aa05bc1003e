/** `ServerDataService`: the statistics store that the console reader feeds, one line at a time.
    The wall clock and the duration formatter are parameters: `now` is `System.currentTimeMillis()` and
    `fmt` is `StringUtils.formatDuration`, whose definition is not part of this model. */
module ServerData {
  import opened Wrappers
  import opened JavaString
  import Search

  const NotAvailable := "N/A"

  /** What `parseOnlinePlayers` looks for; longer than the dispatcher's `"There are "`. */
  const PlayersPhrase := "[Server thread/INFO]: There are "
  /** What `parseMemory` looks for; longer than the dispatcher's `"Current Memory Usage:"`. */
  const MemoryPhrase := "Current Memory Usage: "
  const TpsMarker := "TPS from last"

  /** The characters `parseTPS` keeps: the complement of the class `[^0-9.,-]`. */
  const TpsKept: set<char> := {'0', '1', '2', '3', '4', '5', '6', '7', '8', '9', '.', ',', '-'}

  /** The five atomic fields of the service; `startTime` 0 means "no start time recorded". */
  datatype Store = Store(onlinePlayers: string, tps: string, memory: string, uptime: string, startTime: int)

  /** `parseOnlinePlayers` fails where Java's `substring(0, -1)` throws. */
  datatype ParseError = NoSpaceAfterCount

  /** A parser's answer together with the store as the call leaves it. */
  datatype Parsed = Parsed(value: string, store: Store)

  /** The field values of a freshly constructed service. */
  function Initial(): Store {
    Store(NotAvailable, NotAvailable, NotAvailable, NotAvailable, 0)
  }

  /** `consoleText.split("\n")`. */
  function Lines(text: string): seq<string> {
    Split(text, '\n')
  }

  /* ---------------------------------------------------------------- uptime and reset */

  /** `calculateUptime`: "N/A" until a start time is recorded, else the formatted elapsed time. */
  function CalculateUptime(startTime: int, now: int, fmt: int -> string): (r: string)
    ensures startTime == 0 ==> r == NotAvailable
    ensures startTime != 0 ==> r == fmt(now - startTime)
  {
    if startTime == 0 then NotAvailable else fmt(now - startTime)
  }

  /** `reset`: every value back to "N/A" and no start time, so that uptime reads "N/A" at any instant. */
  function Reset(st: Store): (r: Store)
    ensures r == Initial()
    ensures forall now: int, fmt: int -> string :: CalculateUptime(r.startTime, now, fmt) == NotAvailable
  {
    Store(NotAvailable, NotAvailable, NotAvailable, NotAvailable, 0)
  }

  /** `setServerStartTime`: records the start and recomputes the uptime from it. */
  function SetServerStartTime(st: Store, startTime: int, now: int, fmt: int -> string): (r: Store)
    ensures r.onlinePlayers == st.onlinePlayers && r.tps == st.tps && r.memory == st.memory
    ensures r.startTime == startTime
    ensures r.uptime == CalculateUptime(startTime, now, fmt)
    ensures startTime == 0 ==> r.uptime == NotAvailable
  {
    var s := st.(startTime := startTime);
    s.(uptime := CalculateUptime(s.startTime, now, fmt))
  }

  /* ---------------------------------------------------------------- online players */

  predicate HasPlayersPhrase(line: string) {
    Contains(line, PlayersPhrase)
  }

  /** The text between the phrase and the next space on one line; no space there is Java's
      `StringIndexOutOfBoundsException`. */
  function PlayersOnLine(line: string): (r: Result<string, ParseError>)
    requires HasPlayersPhrase(line)
    ensures r.Failure? <==> ' ' !in AfterFirst(line, PlayersPhrase)
    ensures r.Success? ==> ' ' !in r.value
    ensures r.Success? ==> |r.value| < |AfterFirst(line, PlayersPhrase)|
    ensures r.Success? ==> AfterFirst(line, PlayersPhrase)[..|r.value| + 1] == r.value + " "
  {
    var rest := AfterFirst(line, PlayersPhrase);
    match IndexOfChar(rest, ' ')
    case None => Failure(NoSpaceAfterCount)
    case Some(k) =>
      assert rest[..k + 1] == rest[..k] + " ";
      Success(rest[..k])
  }

  /** `parseOnlinePlayers`: the count on the LAST line carrying the phrase (see
      `OnlinePlayersFromLastMatch`); with no such line the answer is "N/A" and the stored count is reset
      to "N/A" as well. A successful call changes nothing else in the store. */
  function ParseOnlinePlayers(st: Store, text: string): (r: Result<Parsed, ParseError>)
    ensures r.Success? ==> r.value.store.(onlinePlayers := st.onlinePlayers) == st
    ensures r.Success? && r.value.value != NotAvailable ==> r.value.store == st
  {
    var lines := Lines(text);
    match Search.FindLast(lines, HasPlayersPhrase)
    case None => Success(Parsed(NotAvailable, st.(onlinePlayers := NotAvailable)))
    case Some(i) =>
      match PlayersOnLine(lines[i])
      case Failure(e) => Failure(e)
      case Success(v) => Success(Parsed(v, st))
  }

  /** With no line carrying the phrase the count reads, and is stored as, "N/A". */
  lemma OnlinePlayersWithoutPhrase(st: Store, text: string)
    requires forall i :: 0 <= i < |Lines(text)| ==> !HasPlayersPhrase(Lines(text)[i])
    ensures ParseOnlinePlayers(st, text) == Success(Parsed(NotAvailable, st.(onlinePlayers := NotAvailable)))
  {
  }

  /** The line `parseOnlinePlayers` reads is the last one carrying the phrase. */
  lemma OnlinePlayersFromLastMatch(st: Store, text: string, i: nat)
    requires i < |Lines(text)| && HasPlayersPhrase(Lines(text)[i])
    requires forall j :: i < j < |Lines(text)| ==> !HasPlayersPhrase(Lines(text)[j])
    ensures match PlayersOnLine(Lines(text)[i])
      case Failure(e) => ParseOnlinePlayers(st, text) == Failure(e)
      case Success(v) => ParseOnlinePlayers(st, text) == Success(Parsed(v, st))
  {
    Search.FindLastAt(Lines(text), HasPlayersPhrase, i);
  }

  /* ---------------------------------------------------------------- memory */

  predicate HasMemoryPhrase(line: string) {
    Contains(line, MemoryPhrase)
  }

  /** `parseMemory`: the trimmed remainder after the phrase on the LAST line carrying it (see
      `MemoryFromLastMatch`), else "N/A". */
  function ParseMemory(text: string): (r: string)
    ensures r != NotAvailable ==> exists i :: 0 <= i < |Lines(text)| && HasMemoryPhrase(Lines(text)[i])
    ensures r != NotAvailable && |r| > 0 ==> !IsBlank(r[0]) && !IsBlank(r[|r| - 1])
  {
    var lines := Lines(text);
    match Search.FindLast(lines, HasMemoryPhrase)
    case None => NotAvailable
    case Some(i) => Trim(AfterFirst(lines[i], MemoryPhrase))
  }

  /** With no line carrying the phrase the memory reads "N/A". */
  lemma MemoryWithoutPhrase(text: string)
    requires forall i :: 0 <= i < |Lines(text)| ==> !HasMemoryPhrase(Lines(text)[i])
    ensures ParseMemory(text) == NotAvailable
  {
  }

  /** The line `parseMemory` reads is the last one carrying the phrase. */
  lemma MemoryFromLastMatch(text: string, i: nat)
    requires i < |Lines(text)| && HasMemoryPhrase(Lines(text)[i])
    requires forall j :: i < j < |Lines(text)| ==> !HasMemoryPhrase(Lines(text)[j])
    ensures ParseMemory(text) == Trim(AfterFirst(Lines(text)[i], MemoryPhrase))
  {
    Search.FindLastAt(Lines(text), HasMemoryPhrase, i);
  }

  /* ---------------------------------------------------------------- TPS */

  /** The comma fields of a TPS line: everything after its last ':' (the whole line when there is
      none), trimmed, stripped of characters outside `TpsKept`, split at ','. */
  function TpsFields(line: string): (r: seq<string>)
    ensures forall i :: 0 <= i < |r| ==> ',' !in r[i]
    ensures forall i, ch :: 0 <= i < |r| && ch in r[i] ==> ch in TpsKept
  {
    var tail := match LastIndexOfChar(line, ':')
      case None => line
      case Some(k) => line[k + 1..];
    var kept := Filter(Trim(tail), TpsKept);
    assert forall ch :: ch in kept ==> ch in TpsKept;
    Split(kept, ',')
  }

  /** A line `parseTPS` accepts: it names the marker and yields at least three fields. */
  predicate IsTpsSample(line: string) {
    Contains(line, TpsMarker) && |TpsFields(line)| >= 3
  }

  /** Only digits, '.' and '-'. */
  predicate IsTpsNumber(s: string) {
    forall i :: 0 <= i < |s| ==> s[i] in TpsKept && s[i] != ','
  }

  /** `parseTPS`: the first field of the FIRST accepted line (see `TpsFromFirstSample`); with none the
      answer is "N/A" and the stored TPS is reset. The answer is always "N/A" or made of digits, '.'
      and '-' only. */
  function ParseTPS(st: Store, text: string): (r: Parsed)
    ensures r.value == NotAvailable || IsTpsNumber(r.value)
    ensures r.store == st || r == Parsed(NotAvailable, st.(tps := NotAvailable))
  {
    var lines := Lines(text);
    match Search.FindFirst(lines, IsTpsSample)
    case None => Parsed(NotAvailable, st.(tps := NotAvailable))
    case Some(i) =>
      var field := TpsFields(lines[i])[0];
      var v := Trim(field);
      assert IsTpsNumber(v) by {
        forall k | 0 <= k < |v| ensures v[k] in TpsKept && v[k] != ',' {
          assert v[k] in field;
        }
      }
      Parsed(v, st)
  }

  /** With no accepted line the TPS reads, and is stored as, "N/A". */
  lemma TpsWithoutSample(st: Store, text: string)
    requires forall i :: 0 <= i < |Lines(text)| ==> !IsTpsSample(Lines(text)[i])
    ensures ParseTPS(st, text) == Parsed(NotAvailable, st.(tps := NotAvailable))
  {
  }

  /** The line `parseTPS` reads is the first accepted one; earlier lines naming the marker but with
      fewer than three fields are skipped. */
  lemma TpsFromFirstSample(st: Store, text: string, i: nat)
    requires i < |Lines(text)| && IsTpsSample(Lines(text)[i])
    requires forall j :: 0 <= j < i ==> !IsTpsSample(Lines(text)[j])
    ensures ParseTPS(st, text) == Parsed(Trim(TpsFields(Lines(text)[i])[0]), st)
  {
    Search.FindFirstAt(Lines(text), IsTpsSample, i);
  }

  /* ---------------------------------------------------------------- the dispatcher */

  predicate IsPlayersLine(line: string) {
    Contains(line, "There are ") && Contains(line, " players online")
  }

  predicate IsMemoryLine(line: string) {
    Contains(line, "Current Memory Usage:")
  }

  predicate IsTpsLine(line: string) {
    Contains(line, TpsMarker)
  }

  /** At most one of the three parsed values differs between `a` and `b`. */
  predicate AtMostOneChanged(a: Store, b: Store) {
    || (b.memory == a.memory && b.tps == a.tps)
    || (b.onlinePlayers == a.onlinePlayers && b.tps == a.tps)
    || (b.onlinePlayers == a.onlinePlayers && b.memory == a.memory)
  }

  /** The branch of `parseConsoleLine` before the uptime update: a players line, else a memory line,
      else a TPS line updates its one value; only the players parser can fail. */
  function UpdateFromLine(st: Store, line: string): (r: Result<Store, ParseError>)
    ensures r.Failure? ==> IsPlayersLine(line)
    ensures r.Success? ==> AtMostOneChanged(st, r.value) && r.value.uptime == st.uptime
    ensures r.Success? ==> r.value.startTime == st.startTime
    ensures !IsPlayersLine(line) && !IsMemoryLine(line) && !IsTpsLine(line) ==> r == Success(st)
  {
    if IsPlayersLine(line) then
      match ParseOnlinePlayers(st, line)
      case Failure(e) => Failure(e)
      case Success(p) => Success(st.(onlinePlayers := p.value))
    else if IsMemoryLine(line) then
      Success(st.(memory := ParseMemory(line)))
    else if IsTpsLine(line) then
      Success(st.(tps := ParseTPS(st, line).value))
    else
      Success(st)
  }

  /** `parseConsoleLine`: at most one of players, memory and TPS changes, and the uptime is recomputed
      after every line that does not throw. */
  function ParseConsoleLine(st: Store, line: string, now: int, fmt: int -> string): (r: Result<Store, ParseError>)
    ensures r.Failure? ==> IsPlayersLine(line)
    ensures r.Success? ==> AtMostOneChanged(st, r.value)
    ensures r.Success? ==> r.value.startTime == st.startTime && r.value.uptime == CalculateUptime(st.startTime, now, fmt)
  {
    match UpdateFromLine(st, line)
    case Failure(e) => Failure(e)
    case Success(updated) => Success(updated.(uptime := CalculateUptime(updated.startTime, now, fmt)))
  }

  /** Which value a line updates, in the dispatcher's priority order. */
  lemma ConsoleLineDispatch(st: Store, line: string, now: int, fmt: int -> string)
    ensures IsPlayersLine(line) ==>
      match ParseOnlinePlayers(st, line)
      case Failure(e) => ParseConsoleLine(st, line, now, fmt) == Failure(e)
      case Success(p) => (ParseConsoleLine(st, line, now, fmt) ==
        Success(st.(onlinePlayers := p.value, uptime := CalculateUptime(st.startTime, now, fmt))))
    ensures !IsPlayersLine(line) && IsMemoryLine(line) ==>
      ParseConsoleLine(st, line, now, fmt) ==
        Success(st.(memory := ParseMemory(line), uptime := CalculateUptime(st.startTime, now, fmt)))
    ensures !IsPlayersLine(line) && !IsMemoryLine(line) && IsTpsLine(line) ==>
      ParseConsoleLine(st, line, now, fmt) ==
        Success(st.(tps := ParseTPS(st, line).value, uptime := CalculateUptime(st.startTime, now, fmt)))
    ensures !IsPlayersLine(line) && !IsMemoryLine(line) && !IsTpsLine(line) ==>
      ParseConsoleLine(st, line, now, fmt) == Success(st.(uptime := CalculateUptime(st.startTime, now, fmt)))
  {
    match UpdateFromLine(st, line)
    case Failure(e) =>
    case Success(updated) =>
      if IsPlayersLine(line) {
        assert updated == st.(onlinePlayers := ParseOnlinePlayers(st, line).value.value);
      } else if IsMemoryLine(line) {
        assert updated == st.(memory := ParseMemory(line));
      } else if IsTpsLine(line) {
        assert updated == st.(tps := ParseTPS(st, line).value);
      } else {
        assert updated == st;
      }
  }

  /* ---------------------------------------------------------------- properties */

  /** A console line holds no line break, so it is its own only line. */
  lemma SingleLine(line: string)
    requires '\n' !in line
    ensures Lines(line) == [line]
  {
  }

  /** A vanilla `list` reply: the text between the phrase and the next space is the count. */
  lemma PlayersCountIsRead(st: Store, pre: string, count: string, post: string, now: int, fmt: int -> string)
    requires '\n' !in pre + PlayersPhrase + count + " " + post
    requires ' ' !in count
    requires forall k :: 0 <= k < |pre| ==> !OccursAt(pre + PlayersPhrase + count + " " + post, PlayersPhrase, k)
    ensures var line := pre + PlayersPhrase + count + " " + post;
      ParseOnlinePlayers(st, line) == Success(Parsed(count, st))
  {
    var line := pre + PlayersPhrase + count + " " + post;
    assert line[|pre|..|pre| + |PlayersPhrase|] == PlayersPhrase;
    assert OccursAt(line, PlayersPhrase, |pre|);
    var rest := AfterFirst(line, PlayersPhrase);
    assert rest == count + " " + post;
    assert IndexOfChar(rest, ' ') == Some(|count|) by {
      assert rest[|count|] == ' ' && rest[..|count|] == count;
    }
    assert HasPlayersPhrase(line) by {
      assert IndexOf(line, PlayersPhrase).Some?;
    }
    assert PlayersOnLine(line) == Success(count);
    SingleLine(line);
    assert Search.FindLast([line], HasPlayersPhrase) == Some(0);
  }

  /** The dispatcher's test is weaker than the parser's: a players line without the
      `[Server thread/INFO]: ` prefix sets the count to "N/A" instead of reading it. */
  lemma ShortPlayersLineReadsNotAvailable(st: Store, line: string, now: int, fmt: int -> string)
    requires '\n' !in line
    requires IsPlayersLine(line) && !HasPlayersPhrase(line)
    ensures ParseConsoleLine(st, line, now, fmt).Success?
    ensures ParseConsoleLine(st, line, now, fmt).value.onlinePlayers == NotAvailable
  {
    SingleLine(line);
  }

  /** A players line whose count is not followed by a space is Java's exception: nothing is stored. */
  lemma CountWithoutSpaceFails(st: Store, line: string, now: int, fmt: int -> string)
    requires '\n' !in line
    requires IsPlayersLine(line) && HasPlayersPhrase(line)
    requires ' ' !in AfterFirst(line, PlayersPhrase)
    ensures ParseConsoleLine(st, line, now, fmt) == Failure(NoSpaceAfterCount)
  {
    SingleLine(line);
  }

  /** The memory dispatcher accepts `"Current Memory Usage:"` without the space the parser needs: such a
      line stores "N/A". */
  lemma MemoryWithoutSpaceReadsNotAvailable(st: Store, line: string, now: int, fmt: int -> string)
    requires '\n' !in line
    requires !IsPlayersLine(line) && IsMemoryLine(line) && !HasMemoryPhrase(line)
    ensures ParseConsoleLine(st, line, now, fmt) ==
      Success(st.(memory := NotAvailable, uptime := CalculateUptime(st.startTime, now, fmt)))
  {
    SingleLine(line);
  }
}
