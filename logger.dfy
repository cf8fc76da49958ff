/** The audit log (Backend/utils/logger.js): a JSON array of entries in one
    file, pruned to the last 30 days on every append and every read. The
    clock and `Date.parse` are inputs: `now` in milliseconds, `stamp` the
    ISO string of the moment of the append, and `parse` maps a timestamp
    string to milliseconds or to None where `Date.parse` gives NaN. */
module Logger {
  import opened JsValues

  const LOG_RETENTION_DAYS := 30
  const MS_PER_DAY := 24 * 60 * 60 * 1000

  /** The oldest time `cleanupOldLogs` keeps at clock `now`. */
  function Cutoff(now: int): int {
    now - LOG_RETENTION_DAYS * MS_PER_DAY
  }

  /** What an append records besides the timestamp. */
  datatype Event = Event(action: string, email: string, status: string, reason: string, meta: map<string, string>)

  /** One element of the log array. A JSON `null` is singled out because
      reading `.timestamp` of it throws; any other element is an entry whose
      `timestamp` may be missing. */
  datatype LogItem =
    | NullItem
    | Entry(timestamp: Option<string>, event: Event)

  /** The file's text as `JSON.parse` sees it. */
  datatype FileContent =
    | Unparseable
    | NotAnArray
    | Items(items: seq<LogItem>)

  /** The filter's test: a truthy timestamp that parses to a time no older than `cutoff`. */
  predicate Retained(item: LogItem, cutoff: int, parse: string -> Option<int>) {
    && item.Entry?
    && item.timestamp.Some? && item.timestamp.value != ""
    && parse(item.timestamp.value).Some?
    && parse(item.timestamp.value).value >= cutoff
  }

  /** `a` is `b` with some elements left out, order kept. */
  ghost predicate IsSubsequence<T>(a: seq<T>, b: seq<T>)
    decreases |b|
  {
    a == [] || (b != [] && ((a[0] == b[0] && IsSubsequence(a[1..], b[1..])) || IsSubsequence(a, b[1..])))
  }

  /** The `logs.filter(...)` of `cleanupOldLogs` on an array without nulls:
      an order-preserving subsequence holding every retained entry as often
      as the input holds it, and nothing else. */
  function Prune(logs: seq<LogItem>, cutoff: int, parse: string -> Option<int>): (r: seq<LogItem>)
    ensures IsSubsequence(r, logs)
    ensures forall x :: x in r ==> Retained(x, cutoff, parse)
    ensures forall x :: multiset(r)[x] == if Retained(x, cutoff, parse) then multiset(logs)[x] else 0
  {
    if logs == [] then []
    else
      var rest := Prune(logs[1..], cutoff, parse);
      assert logs == [logs[0]] + logs[1..];
      if Retained(logs[0], cutoff, parse) then [logs[0]] + rest else rest
  }

  /** Every entry of the input is either kept or dropped by the test alone. */
  lemma PruneKeepsExactly(logs: seq<LogItem>, cutoff: int, parse: string -> Option<int>, x: LogItem)
    ensures x in Prune(logs, cutoff, parse) <==> x in logs && Retained(x, cutoff, parse)
  {
  }

  /** With the cutoff fixed, pruning a pruned list changes nothing. */
  lemma {:induction false} PruneIdempotent(logs: seq<LogItem>, cutoff: int, parse: string -> Option<int>)
    ensures Prune(Prune(logs, cutoff, parse), cutoff, parse) == Prune(logs, cutoff, parse)
  {
    if logs != [] {
      PruneIdempotent(logs[1..], cutoff, parse);
      var rest := Prune(logs[1..], cutoff, parse);
      if Retained(logs[0], cutoff, parse) {
        assert ([logs[0]] + rest)[1..] == rest;
      }
    }
  }

  /** `cleanupOldLogs(logs)` at clock `now`: None where the filter throws
      (a null element), else the entries of the last 30 days. */
  function CleanupOldLogs(logs: seq<LogItem>, now: int, parse: string -> Option<int>): (r: Option<seq<LogItem>>)
    ensures r.None? <==> NullItem in logs
    ensures r.Some? ==> r.value == Prune(logs, Cutoff(now), parse) && NullItem !in r.value
  {
    if NullItem in logs then None else Some(Prune(logs, Cutoff(now), parse))
  }

  /** The retention boundary is inclusive: an entry exactly 30 days old is
      kept, one a millisecond older is dropped, and an entry whose timestamp
      is missing or empty is dropped whatever `now` is. */
  lemma RetentionBoundary(stamp: string, event: Event, now: int, parse: string -> Option<int>)
    requires stamp != "" && parse(stamp).Some?
    ensures parse(stamp).value == Cutoff(now) ==> CleanupOldLogs([Entry(Some(stamp), event)], now, parse) == Some([Entry(Some(stamp), event)])
    ensures parse(stamp).value == Cutoff(now) - 1 ==> CleanupOldLogs([Entry(Some(stamp), event)], now, parse) == Some([])
    ensures CleanupOldLogs([Entry(None, event)], now, parse) == Some([])
    ensures CleanupOldLogs([Entry(Some(""), event)], now, parse) == Some([])
  {
    var e := Entry(Some(stamp), event);
    assert Prune([e], Cutoff(now), parse) == (if Retained(e, Cutoff(now), parse) then [e] else []) by {
      assert [e][1..] == [];
    }
    assert [Entry(None, event)][1..] == [];
    assert [Entry(Some(""), event)][1..] == [];
  }

  /** Cleaning a cleaned list again at the same clock gives it back. */
  lemma CleanupIdempotent(logs: seq<LogItem>, now: int, parse: string -> Option<int>)
    requires NullItem !in logs
    ensures CleanupOldLogs(CleanupOldLogs(logs, now, parse).value, now, parse) == CleanupOldLogs(logs, now, parse)
  {
    PruneIdempotent(logs, Cutoff(now), parse);
  }

  /** The array `appendLog` starts from: the file's array, or [] when the
      file is missing, does not parse, or holds something other than an array. */
  function Prior(present: bool, content: FileContent): seq<LogItem> {
    if present && content.Items? then content.items else []
  }

  /** The array `appendLog` writes: the cleaned prior entries followed by the
      new one, stamped. None where cleaning throws and nothing is written. */
  function Appended(prior: seq<LogItem>, event: Event, now: int, stamp: string,
                    parse: string -> Option<int>): (r: Option<seq<LogItem>>)
    ensures r.None? <==> NullItem in prior
    ensures r.Some? ==> |r.value| > 0
    ensures r.Some? ==> r.value[|r.value| - 1] == Entry(Some(stamp), event)
    ensures r.Some? ==> r.value[..|r.value| - 1] == Prune(prior, Cutoff(now), parse)
  {
    var cleaned := CleanupOldLogs(prior, now, parse);
    if cleaned.None? then None else Some(cleaned.value + [Entry(Some(stamp), event)])
  }

  /** The log file. */
  class LogFile {
    var present: bool
    var content: FileContent

    constructor (present: bool, content: FileContent)
      ensures this.present == present && this.content == content
    {
      this.present := present;
      this.content := content;
    }

    /** appendLog: create the file as `[]` if missing, read the array
        (anything else counts as []), clean it, push the stamped entry and
        write the array back. A throw inside is caught and only logged. */
    method AppendLog(event: Event, now: int, stamp: string, parse: string -> Option<int>)
      modifies this
      ensures present
      ensures var a := Appended(Prior(old(present), old(content)), event, now, stamp, parse);
              content == if a.Some? then Items(a.value) else if old(present) then old(content) else Items([])
    {
      if !present {
        present := true;
        content := Items([]);
      }
      var logs: seq<LogItem> := [];
      if content.Items? {
        logs := content.items;
      }
      var cleaned := CleanupOldLogs(logs, now, parse);
      if cleaned.None? {
        return;
      }
      logs := cleaned.value;
      logs := logs + [Entry(Some(stamp), event)];
      content := Items(logs);
    }

    /** getLogs: the cleaned array, or [] when the file is missing or
        anything on the way throws. */
    method GetLogs(now: int, parse: string -> Option<int>) returns (logs: seq<LogItem>)
      ensures !present || !content.Items? || NullItem in content.items ==> logs == []
      ensures present && content.Items? && NullItem !in content.items ==>
                logs == Prune(content.items, Cutoff(now), parse)
      ensures forall x :: x in logs ==> Retained(x, Cutoff(now), parse)
    {
      if !present {
        return [];
      }
      if !content.Items? {
        // JSON.parse threw, or the parsed value has no `filter`: caught, [].
        return [];
      }
      var cleaned := CleanupOldLogs(content.items, now, parse);
      if cleaned.None? {
        return [];
      }
      return cleaned.value;
    }
  }
}
