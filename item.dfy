/**
 An entry of a cache table: an immutable key and value, the absolute time after
 which the entry may be swept, an optional keep-alive interval and access
 statistics. Times and durations are integers counting nanoseconds.
 */
module Items {

  /** The range of a signed 64-bit integer, the width of the access counter. */
  newtype Int64 = x: int | -0x8000_0000_0000_0000 <= x < 0x8000_0000_0000_0000

  const MinInt64: Int64 := -0x8000_0000_0000_0000
  const MaxInt64: Int64 := 0x7fff_ffff_ffff_ffff

  /** 2^64: two's-complement counters agree modulo this. */
  const TwoTo64: int := 0x1_0000_0000_0000_0000

  /** `c++` on a signed 64-bit integer: the successor, wrapping to the minimum. */
  function Inc(c: Int64): (r: Int64)
    ensures (r as int - c as int - 1) % TwoTo64 == 0
    ensures c < MaxInt64 ==> r > c
  {
    if c == MaxInt64 then MinInt64 else c + 1
  }

  datatype Option<T> = None | Some(value: T)

  /**
   `lastAccess` is None while the entry has never been read (the zero time);
   `interval > 0` marks a keep-alive entry.
   */
  datatype Item<K, V> = Item(
    key: K,
    value: V,
    expiresAt: int,
    interval: int,
    lastAccess: Option<int>,
    count: Int64)
  {
    function Key(): K { key }

    function Value(): V { value }

    /** True for an entry whose deadline slides forward on every read. */
    predicate IsKeepAlive() { interval > 0 }

    /**
     What a successful read does to the entry: one more access, the access
     time recorded, and for a keep-alive entry a fresh deadline one interval
     from now. Key, value and interval are never touched.
     */
    function Access(now: int): (r: Item<K, V>)
      ensures r.Key() == Key() && r.Value() == Value() && r.interval == interval
      ensures r.count == Inc(count) && r.lastAccess == Some(now)
      ensures IsKeepAlive() ==> r.expiresAt == now + interval
      ensures !IsKeepAlive() ==> r.expiresAt == expiresAt
    {
      var refreshed := if interval > 0 then now + interval else expiresAt;
      this.(count := Inc(count), lastAccess := Some(now), expiresAt := refreshed)
    }
  }

  /** A new entry as Add and AddKeepAlive build it: never read, counter at zero. */
  function NewItem<K, V>(key: K, value: V, expiresAt: int, interval: int): (it: Item<K, V>)
    ensures it.Key() == key && it.Value() == value
    ensures it.expiresAt == expiresAt && it.interval == interval
    ensures it.count == 0 && it.lastAccess == None
  {
    Item(key, value, expiresAt, interval, None, 0)
  }

  /** The entry after reads at each of `times`, in order. */
  function AccessAll<K, V>(it: Item<K, V>, times: seq<int>): Item<K, V>
    decreases |times|
  {
    if times == [] then it else AccessAll(it.Access(times[0]), times[1..])
  }

  /** Reads never change the key, the value or the interval, and count exactly one each (modulo 2^64). */
  lemma {:induction false} AccessKeepsIdentity<K, V>(it: Item<K, V>, times: seq<int>)
    ensures AccessAll(it, times).Key() == it.Key()
    ensures AccessAll(it, times).Value() == it.Value()
    ensures AccessAll(it, times).interval == it.interval
    ensures (AccessAll(it, times).count as int - it.count as int - |times|) % TwoTo64 == 0
    decreases |times|
  {
    if times != [] {
      var next := it.Access(times[0]);
      AccessKeepsIdentity(next, times[1..]);
      var a, b, c := AccessAll(it, times).count as int, next.count as int, it.count as int;
      assert (a - b - (|times| - 1)) % TwoTo64 == 0;
      assert (b - c - 1) % TwoTo64 == 0;
    }
  }

  /** Reads never move the deadline of an entry that is not keep-alive. */
  lemma {:induction false} PlainDeadlineFixed<K, V>(it: Item<K, V>, times: seq<int>)
    requires !it.IsKeepAlive()
    ensures AccessAll(it, times).expiresAt == it.expiresAt
    decreases |times|
  {
    if times != [] {
      PlainDeadlineFixed(it.Access(times[0]), times[1..]);
    }
  }

  /**
   With a clock that never runs backwards, reads never move a keep-alive
   deadline backwards: starting from a deadline at most one interval past
   `start`, reads at non-decreasing times not before `start` end at a
   deadline no earlier, namely one interval after the last read.
   */
  lemma {:induction false} KeepAliveDeadlineNeverRecedes<K, V>(it: Item<K, V>, start: int, times: seq<int>)
    requires it.IsKeepAlive() && it.expiresAt <= start + it.interval
    requires forall i :: 0 <= i < |times| ==> start <= times[i]
    requires forall i, j :: 0 <= i < j < |times| ==> times[i] <= times[j]
    ensures AccessAll(it, times).expiresAt >= it.expiresAt
    ensures times != [] ==> AccessAll(it, times).expiresAt == times[|times| - 1] + it.interval
    decreases |times|
  {
    if times != [] {
      var next := it.Access(times[0]);
      KeepAliveDeadlineNeverRecedes(next, times[0], times[1..]);
    }
  }
}
