/**
 Client runs of a table with an explicit clock, starting at time 0: the two
 runs of the repository's tests, a repeated lookup in the registry, and a
 run in which the sweeper is left with no wake-up pending. Each timer
 wake-up is an explicit Fire at a time no earlier than the wake-up is due.
 */
module Scenarios {
  import opened Items
  import opened Expiry
  import opened Tables

  /** Looking a name up twice yields one table, initialised once. */
  method RepeatedLookup() returns (same: bool, sweepers: nat)
    ensures same && sweepers == 1
  {
    var registry := new Registry<string, string>();
    var first := registry.T("test");
    var second := registry.T("test");
    same := first == second;
    sweepers := second.sweepers;
  }

  /**
   A plain entry due in 5 s: the timer is shortened to 5 s, and once the
   sweep has run after the deadline the entry is gone.
   */
  method GetSetRun() returns (timerPresent: bool, tick: int, existsAfter: bool)
    ensures timerPresent && tick == 5 * Second && !existsAfter
  {
    var registry := new Registry<string, string>();
    var tbl := registry.T("test");
    timerPresent := tbl.hasTimer;
    var _ := tbl.Add("bobby", "tables", 5 * Second, 0);
    tick := tbl.delTick;
    tbl.Fire(5 * Second + 10 * Millisecond);
    existsAfter := tbl.Exists("bobby");
  }

  /**
   A keep-alive entry with a 100 ms interval, read at 99 ms: the read returns
   its value and moves its deadline to 199 ms, so it survives the sweep due
   at 100 ms and is still there at 149 ms. A sweep at exactly 199 ms keeps it
   (its deadline is not before now) and asks for a zero sleep; the next
   sweep removes it, after which it is gone. That last sweep finds nothing
   under the ceiling, so it leaves the timer un-armed with a recorded sleep
   of 0, which no later entry can shorten.
   */
  method KeepAliveRun() returns (got: Option<string>, existsRefreshed: bool, existsLater: bool,
                                 pendingAfter: bool, tickAfter: int)
    ensures got == Some("polo") && existsRefreshed && !existsLater
    ensures !pendingAfter && tickAfter == 0
  {
    var registry := new Registry<string, string>();
    var tbl := registry.T("test_keepalive");
    var _ := tbl.AddKeepAlive("marco", "polo", 100 * Millisecond, 0);
    assert tbl.delTick == 100 * Millisecond;
    got := tbl.Get("marco", 99 * Millisecond);
    assert tbl.items["marco"].expiresAt == 199 * Millisecond;
    tbl.Fire(100 * Millisecond);
    assert tbl.armed && tbl.delTick == 99 * Millisecond;
    existsRefreshed := tbl.Exists("marco");
    tbl.Fire(199 * Millisecond);
    assert "marco" in tbl.items;
    assert tbl.armed && tbl.delTick == 0;
    tbl.Fire(200 * Millisecond);
    existsLater := tbl.Exists("marco");
    pendingAfter, tickAfter := tbl.armed, tbl.delTick;
  }

  /**
   A sweep of an empty table at 10 s finds nothing under the ceiling and so
   does not re-arm the timer; the tracked sleep stays at 10 s. An entry
   added afterwards with a deadline 20 s away does not shorten that sleep,
   so nothing re-arms the timer: the entry is stored with no wake-up pending.
   */
  method StalledSweeperRun() returns (stored: bool, pending: bool)
    ensures stored && !pending
  {
    var registry := new Registry<string, string>();
    var tbl := registry.T("stalled");
    ghost var empty: map<string, Item<string, string>> := map[];
    NextIntervalOfNothing(empty, 10 * Second);
    tbl.Fire(10 * Second);
    var _ := tbl.Add("late", "entry", 30 * Second, 10 * Second);
    stored := tbl.Exists("late");
    pending := tbl.armed;
  }

  /**
   A table created but never initialised: the first Add creates and arms a
   timer for that entry's 10 s, but the recorded sleep stays 0. A second
   entry due in 1 s is then not shorter than 0, so it does not reset the
   timer and the recorded sleep stays 0. The timer's own wake-up, set for
   10 s, is not part of the model.
   */
  method UninitialisedTableRun() returns (armedAfter: bool, tick: int)
    ensures armedAfter && tick == 0
  {
    var tbl := new Table<string, string>("bare");
    var _ := tbl.Add("a", "first", 10 * Second, 0);
    var _ := tbl.Add("b", "second", 1 * Second, 0);
    armedAfter, tick := tbl.armed, tbl.delTick;
  }
}
