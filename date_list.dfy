/**
  `DatePostList`, a `BTreeMap<String, DateTime<Utc>>` from a post's id or
  URI to the date it was posted or liked. The map is modelled the way a
  B-tree map behaves: a list of entries whose keys strictly ascend in
  Rust's string order, so iterating it visits the keys in that order. A
  date is a count of nanoseconds since the Unix epoch.
 */
module DateList {
  import opened Wrappers

  datatype Entry = Entry(key: string, date: int)

  /** Rust's `Ord` on `String`: lexicographic on the code points, which is
      the order of the UTF-8 bytes. */
  predicate Less(a: string, b: string)
    decreases |a|
  {
    if a == [] then b != []
    else if b == [] then false
    else if a[0] != b[0] then a[0] < b[0]
    else Less(a[1..], b[1..])
  }

  lemma {:induction false} LessIrreflexive(a: string)
    ensures !Less(a, a)
    decreases |a|
  {
    if a != [] {
      LessIrreflexive(a[1..]);
    }
  }

  lemma {:induction false} LessTransitive(a: string, b: string, c: string)
    requires Less(a, b) && Less(b, c)
    ensures Less(a, c)
    decreases |a|
  {
    if a != [] && b != [] && c != [] && a[0] == b[0] && b[0] == c[0] {
      LessTransitive(a[1..], b[1..], c[1..]);
    }
  }

  /** Two different strings are ordered one way or the other. */
  lemma {:induction false} LessTotal(a: string, b: string)
    requires a != b
    ensures Less(a, b) || Less(b, a)
    decreases |a|
  {
    if a != [] && b != [] && a[0] == b[0] {
      assert a == [a[0]] + a[1..] && b == [b[0]] + b[1..];
      LessTotal(a[1..], b[1..]);
    }
  }

  /** The keys strictly ascend: a B-tree map's iteration order, with every
      key present once. */
  ghost predicate Ordered(l: seq<Entry>) {
    forall i, j :: 0 <= i < j < |l| ==> Less(l[i].key, l[j].key)
  }

  /** Every key of the list. */
  function Keys(l: seq<Entry>): (r: set<string>)
    ensures forall k :: k in r <==> exists e :: e in l && e.key == k
  {
    set e | e in l :: e.key
  }

  /** The keys of `entries`, in order. */
  function KeySeq(entries: seq<Entry>): (r: seq<string>)
    ensures |r| == |entries| && forall i :: 0 <= i < |r| ==> r[i] == entries[i].key
  {
    seq(|entries|, i requires 0 <= i < |entries| => entries[i].key)
  }

  /** `BTreeMap::insert` on the ordered list: `key` goes in its place,
      replacing the entry it had. */
  function Insert(l: seq<Entry>, key: string, date: int): seq<Entry>
    decreases |l|
  {
    if l == [] then [Entry(key, date)]
    else if l[0].key == key then [Entry(key, date)] + l[1..]
    else if Less(key, l[0].key) then [Entry(key, date)] + l
    else [l[0]] + Insert(l[1..], key, date)
  }

  /** After `insert`, `key` maps to `date` and every other key keeps its
      entry. */
  lemma {:induction false} InsertEntries(l: seq<Entry>, key: string, date: int)
    requires Ordered(l)
    ensures forall e :: e in Insert(l, key, date) <==> e == Entry(key, date) || (e in l && e.key != key)
    decreases |l|
  {
    if l == [] {
    } else if l[0].key == key {
      OrderedTail(l);
      LessIrreflexive(key);
    } else if Less(key, l[0].key) {
      BelowAll(l, key);
    } else {
      OrderedTail(l);
      InsertEntries(l[1..], key, date);
    }
  }

  /** `BTreeMap::remove`: the entry of `key`, if any, is gone. */
  function Remove(l: seq<Entry>, key: string): seq<Entry>
    decreases |l|
  {
    if l == [] then []
    else if l[0].key == key then Remove(l[1..], key)
    else [l[0]] + Remove(l[1..], key)
  }

  /** After `remove`, exactly the entries of the other keys are left. */
  lemma {:induction false} RemoveEntries(l: seq<Entry>, key: string)
    ensures forall e :: e in Remove(l, key) <==> e in l && e.key != key
    decreases |l|
  {
    if l != [] {
      RemoveEntries(l[1..], key);
      assert forall e :: e in l <==> e == l[0] || e in l[1..];
    }
  }

  /** The entries `dates.iter().filter(|(_, date)| date < cutoff)` visits,
      in the map's order. */
  function Older(l: seq<Entry>, cutoff: int): (r: seq<Entry>)
    ensures forall e :: e in r <==> e in l && e.date < cutoff
    decreases |l|
  {
    if l == [] then []
    else if l[0].date < cutoff then [l[0]] + Older(l[1..], cutoff)
    else Older(l[1..], cutoff)
  }

  /** The rest of an ordered list is ordered, and all above its first
      key. */
  lemma OrderedTail(l: seq<Entry>)
    requires Ordered(l) && l != []
    ensures Ordered(l[1..])
    ensures forall e :: e in l[1..] ==> Less(l[0].key, e.key)
  {
  }

  /** A key below the first of an ordered list is below all of them. */
  lemma BelowAll(l: seq<Entry>, key: string)
    requires Ordered(l) && l != [] && Less(key, l[0].key)
    ensures forall e :: e in l ==> Less(key, e.key) && e.key != key
  {
    LessIrreflexive(key);
    forall e | e in l
      ensures Less(key, e.key)
    {
      if e != l[0] {
        OrderedTail(l);
        LessTransitive(key, l[0].key, e.key);
      }
    }
  }

  /** An entry below every key of an ordered list can go in front. */
  lemma OrderedCons(e: Entry, l: seq<Entry>)
    requires Ordered(l)
    requires forall f :: f in l ==> Less(e.key, f.key)
    ensures Ordered([e] + l)
  {
    var r := [e] + l;
    forall i, j | 0 <= i < j < |r|
      ensures Less(r[i].key, r[j].key)
    {
      if i > 0 {
        assert r[i] == l[i - 1] && r[j] == l[j - 1];
      } else {
        assert r[j] in l;
      }
    }
  }

  lemma {:induction false} InsertOrdered(l: seq<Entry>, key: string, date: int)
    requires Ordered(l)
    ensures Ordered(Insert(l, key, date))
    decreases |l|
  {
    if l == [] {
    } else if l[0].key == key {
      OrderedTail(l);
      OrderedCons(Entry(key, date), l[1..]);
    } else if Less(key, l[0].key) {
      BelowAll(l, key);
      OrderedCons(Entry(key, date), l);
    } else {
      OrderedTail(l);
      InsertOrdered(l[1..], key, date);
      InsertEntries(l[1..], key, date);
      LessTotal(key, l[0].key);
      OrderedCons(l[0], Insert(l[1..], key, date));
    }
  }

  lemma {:induction false} RemoveOrdered(l: seq<Entry>, key: string)
    requires Ordered(l)
    ensures Ordered(Remove(l, key))
    decreases |l|
  {
    if l != [] {
      OrderedTail(l);
      RemoveOrdered(l[1..], key);
      RemoveEntries(l[1..], key);
      if l[0].key != key {
        OrderedCons(l[0], Remove(l[1..], key));
      }
    }
  }

  lemma {:induction false} OlderOrdered(l: seq<Entry>, cutoff: int)
    requires Ordered(l)
    ensures Ordered(Older(l, cutoff))
    decreases |l|
  {
    if l != [] {
      OrderedTail(l);
      OlderOrdered(l[1..], cutoff);
      if l[0].date < cutoff {
        OrderedCons(l[0], Older(l[1..], cutoff));
      }
    }
  }
}
