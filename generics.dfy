/**
 * The generic expiring cache of the Generics page and the `appendIDs`
 * extension on strings.
 *
 * Wall-clock time (`Date()`) is an explicit integer `now` argument; the
 * time-to-live added on insertion is the constant `Lifetime`.
 */
module Generics {

  datatype Option<T> = None | Some(value: T)

  /** Time-to-live given to every entry on insertion. */
  const Lifetime: int := 1000

  /** A stored value together with the instant at which it expires. */
  datatype Container<Value> = Container(value: Value, date: int)

  /** Is the entry still valid at time `now`?  Expiry is strict: an entry
      whose date equals `now` has expired. */
  predicate IsLive<Value>(c: Container<Value>, now: int) {
    c.date > now
  }

  /** What a reader can observe at time `now`: the value of every entry
      that has not expired. */
  function Live<Key, Value>(m: map<Key, Container<Value>>, now: int): (view: map<Key, Value>)
    ensures view.Keys <= m.Keys
    ensures forall k | k in m :: k in view <==> IsLive(m[k], now)
    ensures forall k | k in view :: view[k] == m[k].value
  {
    map k | k in m && IsLive(m[k], now) :: m[k].value
  }

  /** The table after `insert(value, forKey: key)` at time `now`. */
  function InsertEntry<Key, Value>(m: map<Key, Container<Value>>, key: Key, value: Value, now: int)
    : (m': map<Key, Container<Value>>)
    ensures key in m' && m'[key].value == value && m'[key].date == now + Lifetime
    ensures m'.Keys == m.Keys + {key}
    ensures forall k :: k in m && k != key ==> m'[k] == m[k]
  {
    m[key := Container(value, now + Lifetime)]
  }

  /** The answer and the table after `value(forKey: key)` at time `now`:
      the value of a live entry, and nothing otherwise; an expired entry
      is removed, every other entry is left as it was. */
  function ReadEntry<Key, Value>(m: map<Key, Container<Value>>, key: Key, now: int)
    : (res: (Option<Value>, map<Key, Container<Value>>))
    ensures res.0 == if key in Live(m, now) then Some(Live(m, now)[key]) else None
    ensures res.1.Keys == if key in m && !IsLive(m[key], now) then m.Keys - {key} else m.Keys
    ensures forall k :: k in res.1 ==> res.1[k] == m[k]
  {
    if key !in m then (None, m)
    else if IsLive(m[key], now) then (Some(m[key].value), m)
    else (None, m - {key})
  }

  /** Lazy eviction is invisible to readers: a read never changes what
      is visible at the time of the read. */
  lemma ReadKeepsLiveView<Key, Value>(m: map<Key, Container<Value>>, key: Key, now: int)
    ensures Live(ReadEntry(m, key, now).1, now) == Live(m, now)
  {
  }

  /** An insertion makes exactly `key` show `value` until it expires. */
  lemma InsertUpdatesLiveView<Key, Value>(m: map<Key, Container<Value>>, key: Key, value: Value, now: int, t: int)
    requires t < now + Lifetime
    ensures Live(InsertEntry(m, key, value, now), t) == Live(m, t)[key := value]
  {
  }

  /** A read before the expiry of the last insertion of `key` returns the
      inserted value and changes nothing, so reads do not extend the
      time-to-live. */
  lemma InsertThenReadLive<Key, Value>(m: map<Key, Container<Value>>, key: Key, value: Value, now: int, t: int)
    requires t < now + Lifetime
    ensures ReadEntry(InsertEntry(m, key, value, now), key, t) == (Some(value), InsertEntry(m, key, value, now))
  {
  }

  /** A read at or after the expiry of the last insertion of `key` returns
      nothing and leaves the table as if `key` had never been inserted. */
  lemma InsertThenReadExpired<Key, Value>(m: map<Key, Container<Value>>, key: Key, value: Value, now: int, t: int)
    requires t >= now + Lifetime
    ensures ReadEntry(InsertEntry(m, key, value, now), key, t) == (None, m - {key})
  {
    var m' := InsertEntry(m, key, value, now);
    assert (m' - {key}).Keys == (m - {key}).Keys;
    assert forall k | k in m' - {key} :: (m' - {key})[k] == (m - {key})[k];
    assert m' - {key} == m - {key};
    assert !IsLive(m'[key], t);
  }

  /** Inserting twice under one key keeps only the second value and the
      second expiration. */
  lemma LastWriteWins<Key, Value>(m: map<Key, Container<Value>>, key: Key, v1: Value, t1: int, v2: Value, t2: int)
    ensures InsertEntry(InsertEntry(m, key, v1, t1), key, v2, t2) == InsertEntry(m, key, v2, t2)
  {
  }

  /** The guard is strict: a read at exactly the expiration instant finds
      the entry expired and removes it, and any earlier read returns it. */
  lemma ExpirationIsStrict<Key, Value>(m: map<Key, Container<Value>>, key: Key, t: int)
    requires key in m
    ensures ReadEntry(m, key, m[key].date) == (None, m - {key})
    ensures t < m[key].date ==> ReadEntry(m, key, t) == (Some(m[key].value), m)
  {
  }

  /** One call on a cache, with the time at which it is made. */
  datatype Op<Key, Value> = Insert(key: Key, value: Value, now: int) | Read(key: Key, now: int)

  /** Replays `ops` on the table `m`: the final table and, for each call,
      what it returned (`None` for an insertion, which returns nothing). */
  function Replay<Key, Value>(m: map<Key, Container<Value>>, ops: seq<Op<Key, Value>>)
    : (res: (map<Key, Container<Value>>, seq<Option<Value>>))
    decreases |ops|
    ensures |res.1| == |ops|
    ensures forall i :: 0 <= i < |ops| && ops[i].Insert? ==> res.1[i] == None
  {
    if ops == [] then (m, [])
    else
      var (m1, out) := match ops[0]
        case Insert(k, v, t) => (InsertEntry(m, k, v, t), None)
        case Read(k, t) => var r := ReadEntry(m, k, t); (r.1, r.0);
      var rest := Replay(m1, ops[1..]);
      (rest.0, [out] + rest.1)
  }

  /** Once `key` is absent (never inserted, or evicted), every later read
      of it returns nothing until it is inserted again, whatever happens
      to the other keys and whenever the reads happen. */
  lemma {:induction false} AbsentUntilInserted<Key, Value>(m: map<Key, Container<Value>>, ops: seq<Op<Key, Value>>, key: Key)
    requires key !in m
    requires forall i :: 0 <= i < |ops| ==> !(ops[i].Insert? && ops[i].key == key)
    ensures key !in Replay(m, ops).0
    ensures forall i :: 0 <= i < |ops| && ops[i].key == key ==> Replay(m, ops).1[i] == None
    decreases |ops|
  {
    if ops != [] {
      var m1 := match ops[0]
        case Insert(k, v, t) => InsertEntry(m, k, v, t)
        case Read(k, t) => ReadEntry(m, k, t).1;
      assert key !in m1;
      AbsentUntilInserted(m1, ops[1..], key);
      var out := Replay(m, ops).1;
      assert Replay(m, ops) == (Replay(m1, ops[1..]).0, out);
      forall i | 0 <= i < |ops| && ops[i].key == key
        ensures out[i] == None
      {
        if i > 0 {
          assert out[i] == Replay(m1, ops[1..]).1[i - 1];
          assert ops[1..][i - 1] == ops[i];
        }
      }
    }
  }

  /** Calls that never insert `key` either leave its entry exactly as it
      was (reads do not refresh it) or remove it. */
  lemma {:induction false} EntryKeptOrGone<Key, Value>(m: map<Key, Container<Value>>, ops: seq<Op<Key, Value>>, key: Key)
    requires key in m
    requires forall i :: 0 <= i < |ops| ==> !(ops[i].Insert? && ops[i].key == key)
    ensures var m' := Replay(m, ops).0; key !in m' || m'[key] == m[key]
    decreases |ops|
  {
    if ops != [] {
      var m1 := match ops[0]
        case Insert(k, v, t) => InsertEntry(m, k, v, t)
        case Read(k, t) => ReadEntry(m, k, t).1;
      assert Replay(m, ops).0 == Replay(m1, ops[1..]).0;
      assert forall i :: 0 <= i < |ops[1..]| ==> ops[1..][i] == ops[i + 1];
      if key in m1 {
        EntryKeptOrGone(m1, ops[1..], key);
      } else {
        AbsentUntilInserted(m1, ops[1..], key);
      }
    }
  }

  /** After `insert(value, forKey: key)` at `now`, and any later calls that
      do not insert `key` again, a read of `key` at or after
      `now + Lifetime` returns nothing. */
  lemma ExpiresAfterLifetime<Key, Value>(m: map<Key, Container<Value>>, key: Key, value: Value, now: int,
                                         ops: seq<Op<Key, Value>>, t: int)
    requires t >= now + Lifetime
    requires forall i :: 0 <= i < |ops| ==> !(ops[i].Insert? && ops[i].key == key)
    ensures ReadEntry(Replay(InsertEntry(m, key, value, now), ops).0, key, t).0 == None
  {
    EntryKeptOrGone(InsertEntry(m, key, value, now), ops, key);
  }

  /** An expired entry, once evicted by a read, stays gone: later reads of
      its key return nothing until the key is inserted again. */
  lemma EvictionIsStable<Key, Value>(m: map<Key, Container<Value>>, key: Key, now: int, ops: seq<Op<Key, Value>>)
    requires key in m && !IsLive(m[key], now)
    requires forall i :: 0 <= i < |ops| ==> !(ops[i].Insert? && ops[i].key == key)
    ensures ReadEntry(m, key, now).0 == None
    ensures forall i :: 0 <= i < |ops| && ops[i].key == key ==> Replay(ReadEntry(m, key, now).1, ops).1[i] == None
  {
    AbsentUntilInserted(ReadEntry(m, key, now).1, ops, key);
  }

  /** `Cache<Key, Value>`: a table from keys to containers, updated in place. */
  class Cache<Key(==), Value> {
    var values: map<Key, Container<Value>>

    /** A fresh cache holds nothing, so every key reads as absent. */
    constructor ()
      ensures values == map[]
      ensures forall t :: Live(values, t) == map[]
    {
      values := map[];
    }

    /** `insert(_:forKey:)`: store `value` under `key`, expiring at `now + Lifetime`. */
    method Insert(value: Value, key: Key, now: int)
      modifies this
      ensures values == InsertEntry(old(values), key, value, now)
    {
      values := values[key := Container(value, now + Lifetime)];
    }

    /** `value(forKey:)`: the value of a live entry; an expired one is removed. */
    method ValueFor(key: Key, now: int) returns (r: Option<Value>)
      modifies this
      ensures r == if key in Live(old(values), now) then Some(old(values)[key].value) else None
      ensures (r, values) == ReadEntry(old(values), key, now)
      ensures Live(values, now) == Live(old(values), now)
    {
      if key !in values {
        return None;
      }
      var container := values[key];
      if !(container.date > now) {
        values := values - {key};
        return None;
      }
      r := Some(container.value);
    }
  }

  /** The `" " + id` pieces that `appendIDs(of:)` adds for `values`, in order. */
  function IdSuffix<T>(values: seq<T>, id: T -> string): string {
    if values == [] then "" else " " + id(values[0]) + IdSuffix(values[1..], id)
  }

  /** The pieces for a concatenation are the pieces of each part, in order. */
  lemma {:induction false} IdSuffixAppend<T>(xs: seq<T>, ys: seq<T>, id: T -> string)
    ensures IdSuffix(xs + ys, id) == IdSuffix(xs, id) + IdSuffix(ys, id)
  {
    if xs != [] {
      assert (xs + ys)[0] == xs[0] && (xs + ys)[1..] == xs[1..] + ys;
      IdSuffixAppend(xs[1..], ys, id);
    } else {
      assert xs + ys == ys;
    }
  }

  /** The sum of the lengths of the ids of `values`. */
  function IdsLength<T>(values: seq<T>, id: T -> string): nat {
    if values == [] then 0 else |id(values[0])| + IdsLength(values[1..], id)
  }

  /** Each value adds one space and its id. */
  lemma {:induction false} IdSuffixLength<T>(values: seq<T>, id: T -> string)
    ensures |IdSuffix(values, id)| == |values| + IdsLength(values, id)
  {
    if values != [] {
      IdSuffixLength(values[1..], id);
    }
  }

  /** `appendIDs(of:)` on the string `s`: appends `" " + id` for each
      value in order; the original string is kept as a prefix. */
  method AppendIDs<T>(s: string, values: seq<T>, id: T -> string) returns (r: string)
    ensures r == s + IdSuffix(values, id)
    ensures s <= r
    ensures values == [] ==> r == s
  {
    r := s;
    for i := 0 to |values|
      invariant r == s + IdSuffix(values[..i], id)
    {
      IdSuffixAppend(values[..i], [values[i]], id);
      assert values[..i + 1] == values[..i] + [values[i]];
      r := r + (" " + id(values[i]));
    }
    assert values[..|values|] == values;
  }
}
