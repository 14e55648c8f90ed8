/** The traffic history of the real service: a list of samples bounded at
    `MaxHistory` entries, oldest first. */
module History {
  import opened WgTypes

  const MaxHistory: nat := 100

  /** One sample appended: the oldest entry is dropped first when the list
      is full. */
  function Push(history: seq<StatsHistoryItem>, item: StatsHistoryItem): seq<StatsHistoryItem> {
    (if |history| >= MaxHistory then history[1..] else history) + [item]
  }

  /** Samples appended one after another. */
  function PushAll(history: seq<StatsHistoryItem>, items: seq<StatsHistoryItem>): seq<StatsHistoryItem>
    decreases |items|
  {
    if items == [] then history else PushAll(Push(history, items[0]), items[1..])
  }

  /** The newest sample is last, the list never grows beyond the bound, and
      the earlier entries keep their order. */
  lemma PushKeeps(history: seq<StatsHistoryItem>, item: StatsHistoryItem)
    requires |history| <= MaxHistory
    ensures var h := Push(history, item);
      |h| <= MaxHistory && |h| >= 1 && h[|h| - 1] == item &&
      (|history| < MaxHistory ==> h == history + [item]) &&
      (|history| == MaxHistory ==> h == history[1..] + [item])
  {
  }

  /** The last `n` elements of `s`, or all of them when there are fewer. */
  function LastAtMost(s: seq<StatsHistoryItem>, n: nat): (r: seq<StatsHistoryItem>)
    ensures |r| <= n && |r| <= |s|
  {
    if |s| <= n then s else s[|s| - n..]
  }

  /** The history is a sliding window: whatever was recorded before, it
      holds exactly the latest `MaxHistory` samples of everything seen. */
  lemma {:induction false} PushAllWindow(history: seq<StatsHistoryItem>, items: seq<StatsHistoryItem>)
    requires |history| <= MaxHistory
    ensures PushAll(history, items) == LastAtMost(history + items, MaxHistory)
    decreases |items|
  {
    if items == [] {
      assert history + items == history;
    } else {
      var h := Push(history, items[0]);
      PushAllWindow(h, items[1..]);
      assert history + items == history + [items[0]] + items[1..];
      if |history| >= MaxHistory {
        assert h + items[1..] == (history + items)[1..];
        var all := history + items;
        assert |all| > MaxHistory;
        assert all[1..][|all| - 1 - MaxHistory..] == all[|all| - MaxHistory..];
      } else {
        assert h + items[1..] == history + items;
      }
    }
  }
}
