/**
 A named cache table: a map from key to entry and one sweep timer. The
 timer is described by three fields: `hasTimer` (a timer object exists),
 `armed` (it has a wake-up still to deliver) and `delTick` (the sleep last
 recorded, in nanoseconds, by Init, a sweep or a shortening). `delTick` is
 not the timer's own sleep once AdjustTimer has created the timer, since
 that path does not record it. Every operation takes the current time as
 `now`.
 */
module Tables {
  import opened Items
  import opened Expiry

  class Table<K(==), V> {
    const name: string
    var items: map<K, Item<K, V>>
    var hasTimer: bool
    var armed: bool
    var delTick: int
    /** How many sweep loops Init has started on this table. */
    var sweepers: nat

    /**
     The invariant every operation preserves: each entry is stored under its
     own key; the recorded sleep is never negative and never above the
     ceiling; only an existing timer is armed.
     */
    ghost predicate Valid()
      reads this
    {
      && (forall k :: k in items ==> items[k].key == k)
      && 0 <= delTick <= Ceiling
      && (armed ==> hasTimer)
    }

    /** A table as first created: empty, no timer, zero recorded sleep. */
    constructor (name: string)
      ensures Valid()
      ensures this.name == name && items == map[]
      ensures !hasTimer && !armed && delTick == 0 && sweepers == 0
    {
      this.name := name;
      items := map[];
      hasTimer, armed, delTick := false, false, 0;
      sweepers := 0;
    }

    /**
     Creates a timer set to the ceiling only when none exists; an existing
     timer, armed or not, and its recorded sleep are left alone. Every call
     starts one more sweep loop.
     */
    method Init()
      requires Valid()
      modifies this`hasTimer, this`armed, this`delTick, this`sweepers
      ensures Valid() && hasTimer
      ensures !old(hasTimer) ==> armed && delTick == Ceiling
      ensures old(hasTimer) ==> armed == old(armed) && delTick == old(delTick)
      ensures sweepers == old(sweepers) + 1
    {
      if !hasTimer {
        hasTimer, armed := true, true;
        delTick := Ceiling;
      }
      sweepers := sweepers + 1;
    }

    /**
     Tells the timer about a new entry. Without a timer one is created and
     armed for the entry's duration, but the recorded sleep is not updated.
     With a timer, the recorded sleep only ever shrinks: the timer is re-armed
     exactly when the entry's duration is shorter than it.
     */
    method AdjustTimer(it: Item<K, V>, now: int)
      requires Valid()
      modifies this`hasTimer, this`armed, this`delTick
      ensures Valid() && hasTimer
      ensures delTick <= old(delTick)
      ensures !old(hasTimer) ==> armed && delTick == old(delTick)
      ensures old(hasTimer) ==> delTick == Shortened(old(delTick), TimerDuration(it, now))
      ensures old(hasTimer) ==> armed == (old(armed) || TimerDuration(it, now) < old(delTick))
    {
      var dur := TimerDuration(it, now);
      if !hasTimer {
        hasTimer, armed := true, true;
        return;
      }
      if delTick > dur {
        armed := true;
        delTick := dur;
      }
    }

    /**
     Stores a plain entry due at `exp`, replacing any entry under `key`, and
     lets the timer know about it. Returns the entry as stored.
     */
    method Add(key: K, value: V, exp: int, now: int) returns (it: Item<K, V>)
      requires Valid()
      modifies this
      ensures Valid() && hasTimer
      ensures it == NewItem(key, value, exp, 0)
      ensures items == old(items)[key := it]
      ensures delTick <= old(delTick)
      ensures old(hasTimer) ==> delTick == Shortened(old(delTick), TimerDuration(it, now))
      ensures old(hasTimer) ==> armed == (old(armed) || TimerDuration(it, now) < old(delTick))
      ensures !old(hasTimer) ==> armed && delTick == old(delTick)
      ensures old(hasTimer) && now <= exp ==> now + delTick <= exp
      ensures sweepers == old(sweepers)
    {
      it := NewItem(key, value, exp, 0);
      items := items[key := it];
      AdjustTimer(it, now);
    }

    /**
     Stores a keep-alive entry due one interval from now, replacing any entry
     under `key`, and lets the timer know about it. Returns the entry as stored.
     */
    method AddKeepAlive(key: K, value: V, interval: int, now: int) returns (it: Item<K, V>)
      requires Valid()
      modifies this
      ensures Valid() && hasTimer
      ensures it == NewItem(key, value, now + interval, interval)
      ensures items == old(items)[key := it]
      ensures delTick <= old(delTick)
      ensures old(hasTimer) ==> delTick == Shortened(old(delTick), TimerDuration(it, now))
      ensures old(hasTimer) ==> armed == (old(armed) || TimerDuration(it, now) < old(delTick))
      ensures !old(hasTimer) ==> armed && delTick == old(delTick)
      ensures old(hasTimer) && 0 < interval ==> delTick <= interval
      ensures sweepers == old(sweepers)
    {
      it := NewItem(key, value, now + interval, interval);
      items := items[key := it];
      AdjustTimer(it, now);
    }

    /** Whether an entry is stored under `key`; a probe that changes nothing. */
    method Exists(key: K) returns (b: bool)
      ensures b <==> key in items
    {
      b := key in items;
    }

    /**
     Reads the value under `key`: None when there is no entry; otherwise the
     entry records the access (see Item.Access) and its value is returned.
     No other entry and none of the timer state changes.
     */
    method Get(key: K, now: int) returns (r: Option<V>)
      requires Valid()
      modifies this`items
      ensures Valid()
      ensures key !in old(items) ==> r == None && items == old(items)
      ensures key in old(items) ==> old(items)[key].Key() == key && r == Some(old(items)[key].Value())
      ensures key in old(items) ==> items == old(items)[key := old(items)[key].Access(now)]
    {
      if key !in items {
        return None;
      }
      var it := items[key].Access(now);
      items := items[key := it];
      r := Some(it.Value());
    }

    /**
     The first pass of a sweep at `now`: visits every entry once, in no
     particular order, and collects the keys of the expired entries and the
     shortest time left among the others, capped at the ceiling.
     */
    method Scan(now: int) returns (dlist: seq<K>, sintv: int)
      ensures forall i :: 0 <= i < |dlist| ==> dlist[i] in items && items[dlist[i]].expiresAt < now
      ensures forall k :: k in items && items[k].expiresAt < now ==> k in dlist
      ensures sintv == NextInterval(items, now)
    {
      dlist := [];
      sintv := Ceiling;
      var unvisited := items.Keys;
      while unvisited != {}
        invariant unvisited <= items.Keys
        invariant forall i :: 0 <= i < |dlist| ==> dlist[i] in items && items[dlist[i]].expiresAt < now
        invariant forall k :: k in items && k !in unvisited && items[k].expiresAt < now ==> k in dlist
        invariant IsNextInterval(items, items.Keys - unvisited, now, sintv)
        decreases unvisited
      {
        var k :| k in unvisited;
        var it := items[k];
        NextIntervalStep(items, items.Keys - unvisited, k, now, sintv);
        assert items.Keys - (unvisited - {k}) == (items.Keys - unvisited) + {k};
        if it.expiresAt < now {
          dlist := dlist + [k];
        } else if Remaining(it, now) < sintv {
          sintv := Remaining(it, now);
        }
        unvisited := unvisited - {k};
      }
      NextIntervalUnique(items, items.Keys, now, sintv, NextInterval(items, now));
    }

    /** The second pass of a sweep: deletes each listed key, leaving every other entry as it was. */
    method DeleteKeys(dlist: seq<K>)
      requires Valid()
      modifies this`items
      ensures Valid()
      ensures forall k :: k in items <==> k in old(items) && k !in dlist
      ensures forall k :: k in items ==> items[k] == old(items)[k]
    {
      for i := 0 to |dlist|
        invariant Valid()
        invariant forall k :: k in items <==> k in old(items) && k !in dlist[..i]
        invariant forall k :: k in items ==> items[k] == old(items)[k]
      {
        items := items - {dlist[i]};
      }
      assert dlist[..|dlist|] == dlist;
    }

    /**
     One sweep at `now`: every expired entry is deleted and every other
     entry stays as it was. The timer is re-armed, and the recorded sleep
     set, only when the shortest time left is below the ceiling.
     */
    method Cleanup(now: int)
      requires Valid() && hasTimer && sweepers > 0
      modifies this`items, this`armed, this`delTick
      ensures Valid() && hasTimer
      ensures items == Swept(old(items), now)
      ensures NextInterval(old(items), now) < Ceiling ==> armed && delTick == NextInterval(old(items), now)
      ensures NextInterval(old(items), now) == Ceiling ==> armed == old(armed) && delTick == old(delTick)
    {
      var dlist, sintv := Scan(now);
      ghost var before := items;
      DeleteKeys(dlist);
      DeletingExpiredIsSweeping(before, items, dlist, now);
      if sintv < Ceiling {
        armed := true;
        delTick := sintv;
      }
    }

    /**
     The sweep loop's wake-up: the armed timer delivers its wake-up, which
     disarms it, and the sweep at `now` runs. Only a table on which Init has
     started a sweep loop is ever swept.
     */
    method Fire(now: int)
      requires Valid() && hasTimer && armed && sweepers > 0
      modifies this`items, this`armed, this`delTick
      ensures Valid() && hasTimer
      ensures items == Swept(old(items), now)
      ensures armed <==> NextInterval(old(items), now) < Ceiling
      ensures armed ==> delTick == NextInterval(old(items), now)
      ensures !armed ==> delTick == old(delTick)
    {
      armed := false;
      Cleanup(now);
    }
  }

  /** The process-wide tables, by name, created on first use. */
  class Registry<K(==), V> {
    var tables: map<string, Table<K, V>>

    /** Each table is registered under its own name and keeps its own invariant. */
    ghost predicate Valid()
      reads this, set n | n in tables :: tables[n]
    {
      forall n :: n in tables ==> tables[n].name == n && tables[n].Valid()
    }

    constructor ()
      ensures Valid() && tables == map[]
    {
      tables := map[];
    }

    /**
     The table called `name`: the one already registered, untouched, or else
     a new empty table, registered under `name` and initialised exactly once.
     */
    method T(name: string) returns (t: Table<K, V>)
      requires Valid()
      modifies this
      ensures Valid()
      ensures name in tables && tables[name] == t && t.Valid()
      ensures name in old(tables) ==> t == old(tables)[name] && tables == old(tables)
      ensures name !in old(tables) ==> fresh(t) && tables == old(tables)[name := t]
      ensures name !in old(tables) ==> t.Valid() && t.name == name && t.items == map[]
      ensures name !in old(tables) ==> t.hasTimer && t.armed && t.delTick == Ceiling && t.sweepers == 1
    {
      if name in tables {
        t := tables[name];
        return;
      }
      t := new Table(name);
      tables := tables[name := t];
      t.Init();
    }
  }
}
