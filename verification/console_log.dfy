/** `ConsoleLogService`: the bounded buffer of console lines replayed to late subscribers. */
module ConsoleLog {

  /** Above this many entries the buffer evicts. */
  const MaxLogSize := 5000
  /** How many of the oldest entries one eviction removes. */
  const EvictionBlock := 1000

  datatype Log = Log(entries: seq<string>)

  function Empty(): Log {
    Log([])
  }

  /** The invariant the service keeps from construction on. */
  predicate Bounded(log: Log) {
    |log.entries| <= MaxLogSize
  }

  /** `addLog`: appends `message`; when that makes the buffer larger than `MaxLogSize`, the oldest
      `EvictionBlock` entries go. What stays is always a suffix of the old entries plus the new one, in
      their original order, ending with `message`. */
  function AddLog(log: Log, message: string): (r: Log)
    ensures var grown := log.entries + [message];
      if |grown| > MaxLogSize then r.entries == grown[EvictionBlock..] else r.entries == grown
    ensures |r.entries| > 0 && r.entries[|r.entries| - 1] == message
    ensures Bounded(log) ==> Bounded(r)
  {
    var grown := log.entries + [message];
    if |grown| > MaxLogSize then Log(grown[EvictionBlock..]) else Log(grown)
  }

  /** `getLogs`: a copy equal to the current contents; the buffer itself is not touched. */
  function GetLogs(log: Log): (r: seq<string>)
    ensures r == log.entries
  {
    log.entries
  }

  /** `clearLogs`. */
  function ClearLogs(log: Log): (r: Log)
    ensures r.entries == []
  {
    Empty()
  }

  /** Several `addLog` calls in order. */
  function AddAll(log: Log, messages: seq<string>): Log
  {
    if |messages| == 0 then log
    else AddLog(AddAll(log, messages[..|messages| - 1]), messages[|messages| - 1])
  }

  /** Starting from any bounded buffer, the bound survives every sequence of appends. */
  lemma {:induction false} AddAllStaysBounded(log: Log, messages: seq<string>)
    requires Bounded(log)
    ensures Bounded(AddAll(log, messages))
  {
    if |messages| > 0 {
      AddAllStaysBounded(log, messages[..|messages| - 1]);
    }
  }

  /** `s` ends with the elements of `tail`, in order. */
  predicate EndsWith(s: seq<string>, tail: seq<string>) {
    |s| >= |tail| && s[|s| - |tail|..] == tail
  }

  /** One append keeps the previous `k - 1` newest entries, now followed by the new one. */
  lemma AddLogKeepsTail(log: Log, message: string, k: nat)
    requires Bounded(log)
    requires 1 <= k <= MaxLogSize - EvictionBlock + 1 && k - 1 <= |log.entries|
    ensures EndsWith(AddLog(log, message).entries, log.entries[|log.entries| - (k - 1)..] + [message])
  {
    var grown := log.entries + [message];
    var r := AddLog(log, message).entries;
    assert r == grown[|grown| - |r|..];
    assert r[|r| - k..] == grown[|grown| - k..];
  }

  /** The induction step of `AddAllKeepsRecent`: a buffer that ends with the last `k - 1` of `sent`
      ends with the last `k` of `sent + [message]` after one more append. */
  lemma RecentStep(log: Log, sent: seq<string>, message: string, k: nat)
    requires Bounded(log)
    requires 1 <= k <= MaxLogSize - EvictionBlock + 1 && k - 1 <= |sent|
    requires EndsWith(log.entries, sent[|sent| - (k - 1)..])
    ensures EndsWith(AddLog(log, message).entries, (sent + [message])[|sent| + 1 - k..])
  {
    AddLogKeepsTail(log, message, k);
    assert log.entries[|log.entries| - (k - 1)..] == sent[|sent| - (k - 1)..];
    assert (sent + [message])[|sent| + 1 - k..] == sent[|sent| - (k - 1)..] + [message];
  }

  /** Eviction never loses recent lines: after any sequence of appends, the buffer ends with the last
      `k` of them in arrival order, for every `k` up to 4001 (what one eviction leaves). */
  lemma {:induction false} AddAllKeepsRecent(log: Log, messages: seq<string>, k: nat)
    requires Bounded(log)
    requires k <= |messages| && k <= MaxLogSize - EvictionBlock + 1
    ensures EndsWith(AddAll(log, messages).entries, messages[|messages| - k..])
  {
    if k > 0 {
      var n := |messages|;
      var init := messages[..n - 1];
      var last := messages[n - 1];
      AddAllStaysBounded(log, init);
      AddAllKeepsRecent(log, init, k - 1);
      RecentStep(AddAll(log, init), init, last, k);
      assert messages == init + [last];
    } else {
      assert messages[|messages|..] == [];
    }
  }
}
