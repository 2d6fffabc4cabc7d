/**
 The arithmetic of expiry that a table's sweeper and timer rely on, as
 functions of the entries and the current time `now` (nanoseconds): which
 entries survive a sweep, how long the sweeper sleeps next, and how long a
 newly added entry asks the timer to wait.
 */
module Expiry {
  import opened Items

  const Microsecond: int := 1_000
  const Millisecond: int := 1_000_000
  const Second: int := 1_000_000_000

  /** The longest the sweeper sleeps: the interval used when no sooner expiry is known. */
  const Ceiling: int := 10 * Second

  /**
   The entries left by a sweep at `now`: an entry goes exactly when its
   deadline is strictly before `now`; a deadline equal to `now` survives.
   */
  function Swept<K, V>(items: map<K, Item<K, V>>, now: int): (r: map<K, Item<K, V>>)
    ensures r.Keys <= items.Keys
    ensures forall k :: k in items && items[k].expiresAt < now ==> k !in r
    ensures forall k :: k in items && now <= items[k].expiresAt ==> k in r && r[k] == items[k]
  {
    map k | k in items && !(items[k].expiresAt < now) :: items[k]
  }

  /** A second sweep at the same time or earlier removes nothing more. */
  lemma SweptIsStable<K, V>(items: map<K, Item<K, V>>, now: int, earlier: int)
    requires earlier <= now
    ensures Swept(Swept(items, now), earlier) == Swept(items, now)
  {
  }

  /** Sweeping twice is sweeping once at the later of the two times. */
  lemma SweepsCompose<K, V>(items: map<K, Item<K, V>>, t1: int, t2: int)
    requires t1 <= t2
    ensures Swept(Swept(items, t1), t2) == Swept(items, t2)
  {
  }

  /**
   Deleting a list that holds every expired key and only expired keys leaves
   exactly the entries a sweep keeps.
   */
  lemma DeletingExpiredIsSweeping<K, V>(before: map<K, Item<K, V>>, after: map<K, Item<K, V>>, dlist: seq<K>, now: int)
    requires forall i :: 0 <= i < |dlist| ==> dlist[i] in before && before[dlist[i]].expiresAt < now
    requires forall k :: k in before && before[k].expiresAt < now ==> k in dlist
    requires forall k :: k in after <==> k in before && k !in dlist
    requires forall k :: k in after ==> after[k] == before[k]
    ensures after == Swept(before, now)
  {
  }

  /** Time left until an entry's deadline. */
  function Remaining<K, V>(it: Item<K, V>, now: int): int
  {
    it.expiresAt - now
  }

  /**
   `s` is the sleep that a sweep at `now` computes over the entries under
   `keys`: capped at Ceiling, no longer than the time left by any surviving
   entry, and equal either to Ceiling or to the time left by one of them.
   */
  ghost predicate IsNextInterval<K, V>(items: map<K, Item<K, V>>, keys: set<K>, now: int, s: int)
    requires keys <= items.Keys
  {
    && s <= Ceiling
    && (forall k :: k in keys && now <= items[k].expiresAt ==> s <= Remaining(items[k], now))
    && (s == Ceiling || exists k :: k in keys && now <= items[k].expiresAt && s == Remaining(items[k], now))
  }

  /** At most one sleep fits IsNextInterval: it is the minimum it describes. */
  lemma NextIntervalUnique<K, V>(items: map<K, Item<K, V>>, keys: set<K>, now: int, s1: int, s2: int)
    requires keys <= items.Keys
    requires IsNextInterval(items, keys, now, s1) && IsNextInterval(items, keys, now, s2)
    ensures s1 == s2
  {
  }

  /** Visiting one more entry keeps a running minimum of the time left. */
  lemma NextIntervalStep<K, V>(items: map<K, Item<K, V>>, keys: set<K>, k: K, now: int, s: int)
    requires keys <= items.Keys && k in items
    requires IsNextInterval(items, keys, now, s)
    ensures IsNextInterval(items, keys + {k}, now,
      if now <= items[k].expiresAt && Remaining(items[k], now) < s then Remaining(items[k], now) else s)
  {
  }

  /** The minimum over the entries under `keys`, taken one key at a time in any order. */
  ghost function MinRemaining<K, V>(items: map<K, Item<K, V>>, keys: set<K>, now: int): (s: int)
    requires keys <= items.Keys
    ensures 0 <= s
    ensures IsNextInterval(items, keys, now, s)
    decreases keys
  {
    if keys == {} then Ceiling
    else
      var k :| k in keys;
      var rest := MinRemaining(items, keys - {k}, now);
      if now <= items[k].expiresAt && Remaining(items[k], now) < rest
      then Remaining(items[k], now)
      else rest
  }

  /** The sleep a sweep at `now` over all of `items` computes. */
  ghost function NextInterval<K, V>(items: map<K, Item<K, V>>, now: int): (s: int)
    ensures 0 <= s <= Ceiling
    ensures forall k :: k in items && now <= items[k].expiresAt ==> now + s <= items[k].expiresAt
    ensures s < Ceiling ==> exists k :: k in items && now + s == items[k].expiresAt
  {
    MinRemaining(items, items.Keys, now)
  }

  /** The sleep depends only on the entries that survive the sweep. */
  lemma NextIntervalOfSurvivors<K, V>(items: map<K, Item<K, V>>, now: int)
    ensures NextInterval(Swept(items, now), now) == NextInterval(items, now)
  {
  }

  /** With nothing to wait for, the sweeper sleeps the whole ceiling. */
  lemma NextIntervalOfNothing<K, V>(items: map<K, Item<K, V>>, now: int)
    requires forall k :: k in items ==> items[k].expiresAt < now
    ensures NextInterval(items, now) == Ceiling
  {
  }

  /**
   How long a new entry asks the timer to wait: a keep-alive entry its
   interval; any other entry the time to its deadline, so that the timer
   is due exactly at the deadline, or one microsecond when the deadline has
   already passed. A deadline equal to `now` asks for zero.
   */
  function TimerDuration<K, V>(it: Item<K, V>, now: int): (d: int)
    ensures 0 <= d
    ensures it.IsKeepAlive() ==> d == it.interval
    ensures !it.IsKeepAlive() && now <= it.expiresAt ==> now + d == it.expiresAt
    ensures !it.IsKeepAlive() && it.expiresAt < now ==> d == Microsecond
  {
    if it.interval > 0 then it.interval
    else
      var d := Remaining(it, now);
      if d < 0 then Microsecond else d
  }

  /**
   The "only shorten" policy of an armed timer: the recorded sleep becomes the
   new duration when that is shorter, and is kept otherwise.
   */
  function Shortened(tick: int, dur: int): (r: int)
    ensures r <= tick && r <= dur
    ensures r == tick || r == dur
  {
    if tick > dur then dur else tick
  }

  /** Shortening is order-independent: the tick ends at the soonest duration seen. */
  lemma ShortenedCommutes(tick: int, d1: int, d2: int)
    ensures Shortened(Shortened(tick, d1), d2) == Shortened(Shortened(tick, d2), d1)
  {
  }
}
