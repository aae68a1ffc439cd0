/**
 * The debug console's log buffer (`logsRef`), which keeps only the most recent entries, and the
 * copy of it that is rendered (`logs`).
 */
module DebugLog {

  datatype LogKind = Log | Error | Warn | Info

  /** One captured console call; the timestamp is the clock reading, in milliseconds. */
  datatype LogEntry = LogEntry(timestamp: nat, kind: LogKind, message: string)

  /** How many entries the buffer keeps. */
  const MaxEntries: nat := 100

  function Min(a: nat, b: nat): nat {
    if a <= b then a else b
  }

  /** The last `n` elements of `s` (all of `s` when it is shorter), in order. */
  function LastN<T>(s: seq<T>, n: nat): (r: seq<T>)
    ensures |r| == Min(|s|, n)
    ensures r == s[|s| - |r|..]
  {
    if |s| > n then s[|s| - n..] else s
  }

  /** Keeping the last `n` after every append is the same as keeping the last `n` of everything. */
  lemma LastNAppend<T>(h: seq<T>, e: T, n: nat)
    requires n > 0
    ensures LastN(LastN(h, n) + [e], n) == LastN(h + [e], n)
  {
    var k := |LastN(h + [e], n)|;
    assert LastN(h, n) + [e] == (h + [e])[|h| - |LastN(h, n)|..];
    assert k <= |LastN(h, n)| + 1;
  }

  class LogBuffer {
    /** `logsRef.current`. */
    var entries: seq<LogEntry>
    /** The `logs` state that the console renders. */
    var shown: seq<LogEntry>
    /** Every entry added since the buffer was created or last cleared. */
    ghost var history: seq<LogEntry>

    /** The buffer holds the last `MaxEntries` entries of its history, and the rendered copy matches. */
    ghost predicate Valid()
      reads this
    {
      entries == LastN(history, MaxEntries) && shown == entries
    }

    constructor ()
      ensures Valid() && entries == [] && shown == [] && history == []
    {
      entries, shown, history := [], [], [];
    }

    /** `addLogEntry`: append, drop from the front down to `MaxEntries`, and copy for rendering. */
    method AddLogEntry(entry: LogEntry)
      requires Valid()
      modifies this
      ensures Valid()
      ensures history == old(history) + [entry]
      ensures entries == LastN(old(entries) + [entry], MaxEntries)
      ensures |entries| == Min(|old(entries)| + 1, MaxEntries) && |entries| <= MaxEntries
      ensures entries[|entries| - 1] == entry
      ensures shown == entries
    {
      entries := entries + [entry];
      if |entries| > MaxEntries {
        entries := entries[|entries| - MaxEntries..];
      }
      shown := entries;
      LastNAppend(history, entry, MaxEntries);
      history := history + [entry];
    }

    /** `clearLogs`: the buffer and the rendered copy become empty. */
    method ClearLogs()
      modifies this
      ensures Valid()
      ensures entries == [] && shown == [] && history == []
    {
      entries, shown, history := [], [], [];
    }
  }
}
