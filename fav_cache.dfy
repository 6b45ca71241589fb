/**
  The cache files of the favourites deletion: a file holding a
  `DatePostList` (`load_dates_from_cache`, `save_dates_to_cache`,
  `remove_date_from_cache`), the ninety-day cutoff, and the dates a run of
  `insert`s leaves in the map.
 */
module FavCache {
  import opened Wrappers
  import opened DateList

  /** `Duration::days(90)` in nanoseconds. */
  const NinetyDays: int := 90 * 24 * 60 * 60 * 1_000_000_000

  /** `Utc::now() - Duration::days(90)`: favourites liked before it are
      deleted. */
  function Cutoff(now: int): (cutoff: int)
    ensures cutoff < now
  {
    now - NinetyDays
  }

  /** What `save_dates_to_cache` leaves behind: no file for an empty map,
      otherwise the map. */
  function Saved(dates: seq<Entry>): (file: Option<seq<Entry>>)
    ensures file.None? <==> dates == []
    ensures file.Some? ==> file.value == dates
  {
    if dates == [] then None else Some(dates)
  }

  /** What `remove_date_from_cache` leaves behind: a missing file stays
      missing; an existing one loses the entry of `key`, and goes away when
      that was the last entry. */
  function RemovedFrom(file: Option<seq<Entry>>, key: string): Option<seq<Entry>> {
    match file
    case None => None
    case Some(dates) => Saved(Remove(dates, key))
  }

  /** The file after `remove_date_from_cache` of each key in turn. */
  function RemovedAll(file: Option<seq<Entry>>, keys: seq<string>): Option<seq<Entry>>
    decreases |keys|
  {
    if keys == [] then file
    else RemovedFrom(RemovedAll(file, keys[..|keys| - 1]), keys[|keys| - 1])
  }

  /** Removing keys one by one removes exactly the entries that have one of
      them, and creates no file. */
  lemma {:induction false} RemovedAllEntries(file: Option<seq<Entry>>, keys: seq<string>)
    ensures file.None? ==> RemovedAll(file, keys).None?
    ensures RemovedAll(file, keys).Some? ==>
              forall e :: e in RemovedAll(file, keys).value <==> e in file.value && e.key !in keys
    decreases |keys|
  {
    if keys != [] {
      var front := keys[..|keys| - 1];
      RemovedAllEntries(file, front);
      var f := RemovedAll(file, front);
      if f.Some? {
        RemoveEntries(f.value, keys[|keys| - 1]);
      }
      assert keys == front + [keys[|keys| - 1]];
    }
  }

  /** A cache file that holds a map keeps holding one. */
  lemma {:induction false} RemovedAllOrdered(file: Option<seq<Entry>>, keys: seq<string>)
    requires file.Some? ==> Ordered(file.value)
    ensures RemovedAll(file, keys).Some? ==> Ordered(RemovedAll(file, keys).value)
    decreases |keys|
  {
    if keys != [] {
      RemovedAllOrdered(file, keys[..|keys| - 1]);
      var f := RemovedAll(file, keys[..|keys| - 1]);
      if f.Some? {
        RemoveOrdered(f.value, keys[|keys| - 1]);
      }
    }
  }

  /** A cache file. `file` is what it holds, `None` when there is none. A
      file that exists holds a map; JSON is left implicit. */
  class DateCache {
    var file: Option<seq<Entry>>

    ghost predicate Valid()
      reads this
    {
      file.Some? ==> Ordered(file.value)
    }

    constructor (file: Option<seq<Entry>>)
      requires file.Some? ==> Ordered(file.value)
      ensures this.file == file && Valid()
    {
      this.file := file;
    }

    /** `load_dates_from_cache`. */
    method Load() returns (dates: Option<seq<Entry>>)
      requires Valid()
      ensures dates == file
      ensures dates.Some? ==> Ordered(dates.value)
    {
      dates := file;
    }

    /** `save_dates_to_cache`. */
    method Save(dates: seq<Entry>)
      requires Ordered(dates)
      modifies this
      ensures file == Saved(dates) && Valid()
    {
      if dates == [] {
        file := None;
      } else {
        file := Some(dates);
      }
    }

    /** `remove_date_from_cache`. */
    method RemoveDate(key: string)
      requires Valid()
      modifies this
      ensures file == RemovedFrom(old(file), key) && Valid()
    {
      var dates := Load();
      if dates.Some? {
        RemoveOrdered(dates.value, key);
        Save(Remove(dates.value, key));
      }
    }
  }

  /** The map after `insert` of each entry in turn. */
  function InsertAll(dates: seq<Entry>, entries: seq<Entry>): seq<Entry>
    decreases |entries|
  {
    if entries == [] then dates
    else
      var last := entries[|entries| - 1];
      Insert(InsertAll(dates, entries[..|entries| - 1]), last.key, last.date)
  }

  /** A map stays a map. */
  lemma {:induction false} InsertAllOrdered(dates: seq<Entry>, entries: seq<Entry>)
    requires Ordered(dates)
    ensures Ordered(InsertAll(dates, entries))
    decreases |entries|
  {
    if entries != [] {
      var last := entries[|entries| - 1];
      InsertAllOrdered(dates, entries[..|entries| - 1]);
      InsertOrdered(InsertAll(dates, entries[..|entries| - 1]), last.key, last.date);
    }
  }

  /** The last of the entries with key `key`, if any: the one whose
      `insert` stays. */
  function Winner(entries: seq<Entry>, key: string): (w: Option<Entry>)
    ensures w.None? <==> forall j :: 0 <= j < |entries| ==> entries[j].key != key
    ensures w.Some? ==> w.value.key == key && w.value in entries
    decreases |entries|
  {
    if entries == [] then None
    else if entries[|entries| - 1].key == key then Some(entries[|entries| - 1])
    else
      var w := Winner(entries[..|entries| - 1], key);
      assert w.Some? ==> w.value in entries;
      w
  }

  /** The last insert of a key wins; keys never inserted keep their
      entry. */
  lemma {:induction false} InsertAllEntries(dates: seq<Entry>, entries: seq<Entry>, e: Entry)
    requires Ordered(dates)
    ensures e in InsertAll(dates, entries) <==>
              match Winner(entries, e.key)
              case None => e in dates
              case Some(w) => e == w
    decreases |entries|
  {
    if entries != [] {
      var front := entries[..|entries| - 1];
      var last := entries[|entries| - 1];
      InsertAllEntries(dates, front, e);
      InsertAllOrdered(dates, front);
      InsertEntries(InsertAll(dates, front), last.key, last.date);
    }
  }

  /** `insert`ing in two runs is `insert`ing in one. */
  lemma {:induction false} InsertAllAppend(dates: seq<Entry>, a: seq<Entry>, b: seq<Entry>)
    ensures InsertAll(dates, a + b) == InsertAll(InsertAll(dates, a), b)
    decreases |b|
  {
    if b == [] {
      assert a + b == a;
    } else {
      var n := |b| - 1;
      assert (a + b)[..|a + b| - 1] == a + b[..n];
      assert (a + b)[|a + b| - 1] == b[n];
      InsertAllAppend(dates, a, b[..n]);
    }
  }

  /** One more `insert`. */
  lemma InsertAllStep(dates: seq<Entry>, entries: seq<Entry>, i: nat)
    requires i < |entries|
    ensures InsertAll(dates, entries[..i + 1])
            == Insert(InsertAll(dates, entries[..i]), entries[i].key, entries[i].date)
  {
    assert entries[..i + 1][..i] == entries[..i];
  }
}
