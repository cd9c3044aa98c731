// Range iteration over a database that is a sorted sequence of entries, under
// a comparator supplied by the user.

module RangeIter {
  import opened Machine

  type Comparator<!K> = (K, K) -> int

  // Comparators order keys totally; different keys may compare equal.
  ghost predicate TotalOrder<K(!new)>(compare: Comparator<K>) {
    && (forall a, b :: compare(a, b) < 0 <==> compare(b, a) > 0)
    && (forall a, b, c :: compare(a, b) <= 0 && compare(b, c) <= 0 ==> compare(a, c) <= 0)
  }

  // The order applied to three given keys.
  lemma Order<K(!new)>(compare: Comparator<K>, a: K, b: K, c: K)
    requires TotalOrder(compare)
    ensures compare(a, b) < 0 <==> compare(b, a) > 0
    ensures compare(a, b) <= 0 && compare(b, c) <= 0 ==> compare(a, c) <= 0
  {}

  datatype Entry<K, V> = Entry(key: K, value: V)

  ghost predicate Sorted<K(!new), V>(entries: seq<Entry<K, V>>, compare: Comparator<K>) {
    forall i, j :: 0 <= i < j < |entries| ==> compare(entries[i].key, entries[j].key) < 0
  }

  // ------------------------------------------------------------------
  // What a range is
  // ------------------------------------------------------------------

  ghost predicate InRange<K>(key: K, from: Option<K>, to: Option<K>, compare: Comparator<K>) {
    && (from.Some? ==> compare(from.value, key) <= 0)
    && (to.Some? ==> compare(key, to.value) <= 0)
  }

  // The entries with from <= key <= to, in order.
  ghost function Select<K, V>(s: seq<Entry<K, V>>, from: Option<K>, to: Option<K>,
                              compare: Comparator<K>): seq<Entry<K, V>> {
    if s == [] then []
    else (if InRange(s[0].key, from, to, compare) then [s[0]] else []) + Select(s[1..], from, to, compare)
  }

  // A selection holds exactly the entries in the range, each once and in
  // ascending order.
  lemma {:induction false} SelectMembers<K(!new), V>(s: seq<Entry<K, V>>, from: Option<K>, to: Option<K>,
                                                     compare: Comparator<K>, e: Entry<K, V>)
    ensures e in Select(s, from, to, compare) <==>
            && e in s
            && (from.Some? ==> compare(from.value, e.key) <= 0)
            && (to.Some? ==> compare(e.key, to.value) <= 0)
  {
    if s != [] {
      SelectMembers(s[1..], from, to, compare, e);
      assert e in s <==> e == s[0] || e in s[1..];
    }
  }

  lemma {:induction false} SelectSorted<K(!new), V>(s: seq<Entry<K, V>>, from: Option<K>, to: Option<K>,
                                                    compare: Comparator<K>)
    requires Sorted(s, compare)
    ensures Sorted(Select(s, from, to, compare), compare)
  {
    hide InRange;
    if s != [] {
      var rest := Select(s[1..], from, to, compare);
      SelectSorted(s[1..], from, to, compare);
      forall i | 0 <= i < |rest|
        ensures compare(s[0].key, rest[i].key) < 0
      {
        SelectMembers(s[1..], from, to, compare, rest[i]);
      }
    }
  }

  ghost function Reverse<T>(s: seq<T>): seq<T> {
    if s == [] then [] else Reverse(s[1..]) + [s[0]]
  }

  lemma {:induction false} ReverseAt<T>(s: seq<T>)
    ensures |Reverse(s)| == |s|
    ensures forall k :: 0 <= k < |s| ==> Reverse(s)[k] == s[|s| - 1 - k]
  {
    if s != [] {
      ReverseAt(s[1..]);
    }
  }

  lemma {:induction false} SelectAppend<K, V>(s: seq<Entry<K, V>>, t: seq<Entry<K, V>>, from: Option<K>,
                                              to: Option<K>, compare: Comparator<K>)
    ensures Select(s + t, from, to, compare) == Select(s, from, to, compare) + Select(t, from, to, compare)
  {
    hide InRange;
    if s == [] {
      assert s + t == t;
    } else {
      SelectAppend(s[1..], t, from, to, compare);
      SelectStep(s, t, from, to, compare);
    }
  }

  lemma SelectStep<K, V>(s: seq<Entry<K, V>>, t: seq<Entry<K, V>>, from: Option<K>, to: Option<K>,
                         compare: Comparator<K>)
    requires s != []
    requires Select(s[1..] + t, from, to, compare) ==
             Select(s[1..], from, to, compare) + Select(t, from, to, compare)
    ensures Select(s + t, from, to, compare) == Select(s, from, to, compare) + Select(t, from, to, compare)
  {
    hide Select, InRange;
    assert (s + t)[0] == s[0] && (s + t)[1..] == s[1..] + t;
    SelectFirst(s, from, to, compare);
    SelectFirst(s + t, from, to, compare);
  }

  lemma SelectFirst<K, V>(s: seq<Entry<K, V>>, from: Option<K>, to: Option<K>, compare: Comparator<K>)
    requires s != []
    ensures Select(s, from, to, compare) ==
            (if InRange(s[0].key, from, to, compare) then [s[0]] else []) + Select(s[1..], from, to, compare)
  {}

  lemma {:induction false} SelectNone<K, V>(s: seq<Entry<K, V>>, from: Option<K>, to: Option<K>, compare: Comparator<K>)
    requires forall i :: 0 <= i < |s| ==> !InRange(s[i].key, from, to, compare)
    ensures Select(s, from, to, compare) == []
  {
    if s != [] {
      SelectNone(s[1..], from, to, compare);
    }
  }

  lemma {:induction false} ReverseAppend<T>(s: seq<T>, t: seq<T>)
    ensures Reverse(s + t) == Reverse(t) + Reverse(s)
  {
    if s == [] {
      assert s + t == t;
    } else {
      assert (s + t)[0] == s[0] && (s + t)[1..] == s[1..] + t;
      ReverseAppend(s[1..], t);
      assert Reverse(t) + (Reverse(s[1..]) + [s[0]]) == (Reverse(t) + Reverse(s[1..])) + [s[0]];
    }
  }

  // ------------------------------------------------------------------
  // What stepping a cursor until it runs past the bound yields
  // ------------------------------------------------------------------

  // The iterator's own test: has the cursor run past the bound?
  function Past<K>(bound: Option<K>, key: K, isReverse: bool, compare: Comparator<K>): bool {
    bound.Some? && if isReverse then compare(bound.value, key) > 0 else compare(bound.value, key) < 0
  }

  ghost function Walk<K, V>(entries: seq<Entry<K, V>>, pos: int, bound: Option<K>, isReverse: bool,
                            compare: Comparator<K>): seq<Entry<K, V>>
    decreases if isReverse then pos else |entries| - pos
  {
    if !(0 <= pos < |entries|) || Past(bound, entries[pos].key, isReverse, compare) then []
    else [entries[pos]] + Walk(entries, if isReverse then pos - 1 else pos + 1, bound, isReverse, compare)
  }

  // Forward from the first entry that is not below `from`.
  lemma {:induction false} WalkForward<K(!new), V>(entries: seq<Entry<K, V>>, pos: nat, from: Option<K>,
                                                   to: Option<K>, compare: Comparator<K>)
    requires TotalOrder(compare) && Sorted(entries, compare) && pos <= |entries|
    requires from.Some? ==> forall i :: pos <= i < |entries| ==> compare(from.value, entries[i].key) <= 0
    ensures Walk(entries, pos, to, false, compare) == Select(entries[pos..], from, to, compare)
    decreases |entries| - pos
  {
    if pos < |entries| {
      var rest := entries[pos..];
      assert rest[0] == entries[pos] && rest[1..] == entries[pos + 1..];
      if Past(to, entries[pos].key, false, compare) {
        forall i | 0 <= i < |rest|
          ensures !InRange(rest[i].key, from, to, compare)
        {
          assert rest[i] == entries[pos + i];
          Order(compare, entries[pos].key, entries[pos].key, entries[pos].key);
          Order(compare, entries[pos].key, rest[i].key, to.value);
          Order(compare, to.value, entries[pos].key, to.value);
        }
        SelectNone(rest, from, to, compare);
      } else {
        WalkForward(entries, pos + 1, from, to, compare);
      }
    }
  }

  // One entry added at the end of a selection.
  lemma SelectLast<K, V>(s: seq<Entry<K, V>>, e: Entry<K, V>, from: Option<K>, to: Option<K>, compare: Comparator<K>)
    requires InRange(e.key, from, to, compare)
    ensures Reverse(Select(s + [e], from, to, compare)) == [e] + Reverse(Select(s, from, to, compare))
  {
    SelectAppend(s, [e], from, to, compare);
    assert [e][1..] == [] && [e] + [] == [e];
    assert Select([e], from, to, compare) == [e] + Select([e][1..], from, to, compare);
    ReverseAppend(Select(s, from, to, compare), [e]);
    assert Reverse([e]) == Reverse([e][1..]) + [e];
  }

  // Backward from the last entry that is not above `to`.
  lemma {:induction false} WalkBackward<K(!new), V>(entries: seq<Entry<K, V>>, pos: int, from: Option<K>,
                                                    to: Option<K>, compare: Comparator<K>)
    requires TotalOrder(compare) && Sorted(entries, compare) && -1 <= pos < |entries|
    requires to.Some? ==> forall i :: 0 <= i <= pos ==> compare(entries[i].key, to.value) <= 0
    ensures Walk(entries, pos, from, true, compare) == Reverse(Select(entries[..pos + 1], from, to, compare))
    decreases pos + 1
  {
    if pos >= 0 {
      var done, e := entries[..pos + 1], entries[pos];
      assert done == entries[..pos] + [e];
      if Past(from, e.key, true, compare) {
        forall i | 0 <= i < |done|
          ensures !InRange(done[i].key, from, to, compare)
        {
          Order(compare, e.key, e.key, e.key);
          Order(compare, from.value, done[i].key, e.key);
        }
        SelectNone(done, from, to, compare);
      } else {
        SelectLast(entries[..pos], e, from, to, compare);
        WalkBackward(entries, pos - 1, from, to, compare);
      }
    }
  }

  // target splits the entries: those before pos are below it, the others not.
  ghost predicate NotBelowFrom<K, V>(entries: seq<Entry<K, V>>, pos: int, target: K, compare: Comparator<K>) {
    && (forall i :: 0 <= i < |entries| && i < pos ==> compare(target, entries[i].key) > 0)
    && (forall i :: 0 <= i < |entries| && pos <= i ==> compare(target, entries[i].key) <= 0)
  }

  // Those up to pos are not above target, the others are.
  ghost predicate NotAboveUpTo<K, V>(entries: seq<Entry<K, V>>, pos: int, target: K, compare: Comparator<K>) {
    && (forall i :: 0 <= i < |entries| && i <= pos ==> compare(entries[i].key, target) <= 0)
    && (forall i :: 0 <= i < |entries| && pos < i ==> compare(entries[i].key, target) > 0)
  }

  // The position is where a walk over the range has to start.
  ghost predicate StartsRange<K, V>(entries: seq<Entry<K, V>>, pos: int, from: Option<K>, to: Option<K>,
                                    isReverse: bool, compare: Comparator<K>) {
    if isReverse then
      -1 <= pos < |entries| &&
          (if to.Some? then NotAboveUpTo(entries, pos, to.value, compare) else pos == |entries| - 1)
    else
      0 <= pos <= |entries| && (if from.Some? then NotBelowFrom(entries, pos, from.value, compare) else pos == 0)
  }

  lemma SelectSplit<K, V>(entries: seq<Entry<K, V>>, cut: nat, from: Option<K>, to: Option<K>, compare: Comparator<K>)
    requires cut <= |entries|
    ensures Select(entries, from, to, compare) ==
            Select(entries[..cut], from, to, compare) + Select(entries[cut..], from, to, compare)
  {
    assert entries == entries[..cut] + entries[cut..];
    SelectAppend(entries[..cut], entries[cut..], from, to, compare);
  }

  // From there, walking until the other bound is passed visits exactly the
  // range, in the direction asked for.  Crossed bounds give nothing.
  lemma WalkIsRange<K(!new), V>(entries: seq<Entry<K, V>>, pos: int, from: Option<K>, to: Option<K>,
                                isReverse: bool, compare: Comparator<K>)
    requires TotalOrder(compare) && Sorted(entries, compare) && StartsRange(entries, pos, from, to, isReverse, compare)
    ensures Walk(entries, pos, if isReverse then from else to, isReverse, compare) ==
            if isReverse then Reverse(Select(entries, from, to, compare)) else Select(entries, from, to, compare)
  {
    hide Select, Reverse, Walk, TotalOrder, Sorted;
    if isReverse {
      SelectSplit(entries, pos + 1, from, to, compare);
      WalkBackward(entries, pos, from, to, compare);
      NoneAbove(entries, pos, from, to, compare);
      assert Select(entries[..pos + 1], from, to, compare) + [] == Select(entries[..pos + 1], from, to, compare);
    } else {
      SelectSplit(entries, pos, from, to, compare);
      WalkForward(entries, pos, from, to, compare);
      NoneBelow(entries, pos, from, to, compare);
      assert [] + Select(entries[pos..], from, to, compare) == Select(entries[pos..], from, to, compare);
    }
  }

  lemma NoneAbove<K(!new), V>(entries: seq<Entry<K, V>>, pos: int, from: Option<K>, to: Option<K>,
                              compare: Comparator<K>)
    requires StartsRange(entries, pos, from, to, true, compare)
    ensures Select(entries[pos + 1..], from, to, compare) == []
  {
    var rest := entries[pos + 1..];
    forall i | 0 <= i < |rest|
      ensures !InRange(rest[i].key, from, to, compare)
    {
      assert rest[i] == entries[pos + 1 + i];
    }
    SelectNone(rest, from, to, compare);
  }

  lemma NoneBelow<K(!new), V>(entries: seq<Entry<K, V>>, pos: int, from: Option<K>, to: Option<K>,
                              compare: Comparator<K>)
    requires StartsRange(entries, pos, from, to, false, compare)
    ensures Select(entries[..pos], from, to, compare) == []
  {
    SelectNone(entries[..pos], from, to, compare);
  }

  // ------------------------------------------------------------------
  // The objects
  // ------------------------------------------------------------------

  // leveldb::Iterator: a position in a sorted sequence; not valid outside it.
  class Cursor<K(!new), V> {
    const entries: seq<Entry<K, V>>
    const compare: Comparator<K>
    var pos: int

    constructor (entries: seq<Entry<K, V>>, compare: Comparator<K>)
      ensures this.entries == entries && this.compare == compare && pos == -1
    {
      this.entries, this.compare, pos := entries, compare, -1;
    }

    predicate Valid()
      reads this
    {
      0 <= pos < |entries|
    }

    method SeekToFirst()
      modifies this
      ensures pos == 0
    {
      pos := 0;
    }

    method SeekToLast()
      modifies this
      ensures pos == |entries| - 1
    {
      pos := |entries| - 1;
    }

    // The first entry at or past the target.
    method Seek(target: K)
      requires TotalOrder(compare) && Sorted(entries, compare)
      modifies this
      ensures 0 <= pos <= |entries|
      ensures forall i :: 0 <= i < pos ==> compare(target, entries[i].key) > 0
      ensures forall i :: pos <= i < |entries| ==> compare(target, entries[i].key) <= 0
    {
      pos := 0;
      while pos < |entries| && compare(target, entries[pos].key) > 0
        invariant 0 <= pos <= |entries|
        invariant forall i :: 0 <= i < pos ==> compare(target, entries[i].key) > 0
      {
        pos := pos + 1;
      }
      forall i | pos <= i < |entries|
        ensures compare(target, entries[i].key) <= 0
      {
        assert i > pos ==> compare(entries[pos].key, entries[i].key) <= 0;
      }
    }

    method Next()
      requires Valid()
      modifies this
      ensures pos == old(pos) + 1
    {
      pos := pos + 1;
    }

    method Prev()
      requires Valid()
      modifies this
      ensures pos == old(pos) - 1
    {
      pos := pos - 1;
    }
  }

  class PyLevelDB<K(!new), V> {
    const entries: seq<Entry<K, V>>
    const compare: Comparator<K>
    var nIterators: int

    ghost predicate Valid() {
      TotalOrder(compare) && Sorted(entries, compare)
    }

    constructor (entries: seq<Entry<K, V>>, compare: Comparator<K>)
      requires TotalOrder(compare) && Sorted(entries, compare)
      ensures Valid() && this.entries == entries && this.compare == compare && nIterators == 0
    {
      this.entries, this.compare, nIterators := entries, compare, 0;
    }

    // Position a new cursor where the range starts, repairing the seek when
    // walking backward: past the end, go to the last entry; on an entry above
    // the upper bound, step back.
    method PositionCursor(from: Option<K>, to: Option<K>, isReverse: bool) returns (iter: Cursor<K, V>)
      requires Valid()
      ensures fresh(iter) && iter.entries == entries && iter.compare == compare
      ensures StartsRange(entries, iter.pos, from, to, isReverse, compare)
    {
      iter := new Cursor(entries, compare);
      if !isReverse {
        if from.None? {
          iter.SeekToFirst();
        } else {
          iter.Seek(from.value);
        }
      } else {
        if to.None? {
          iter.SeekToLast();
        } else {
          iter.Seek(to.value);
          if !iter.Valid() {
            iter.SeekToLast();
          } else {
            var c := compare(to.value, entries[iter.pos].key);
            ghost var seeked := iter.pos;
            if c != 0 {
              iter.Prev();
            }
            AfterSeek(entries, seeked, to.value, compare);
          }
        }
      }
    }

    // PyLevelDB_RangeIter_: the iterator yields exactly the inclusive range.
    // An iterator without entries is not registered with the database.
    method RangeIter(from: Option<K>, to: Option<K>, includeValue: bool, isReverse: bool)
      returns (iter: PyLevelDBIter<K, V>)
      requires Valid()
      modifies this
      ensures iter.Valid() && fresh(iter) && fresh(iter.Owned()) && (iter.db == null || iter.db == this)
      ensures iter.Remaining() ==
              if isReverse then Reverse(Select(entries, from, to, compare)) else Select(entries, from, to, compare)
      ensures iter.ref ==> iter.includeValue == includeValue && iter.db == this
      ensures !iter.ref ==> iter.Remaining() == [] && iter.db == null
      ensures nIterators == old(nIterators) + if iter.ref then 1 else 0
    {
      var cursor := PositionCursor(from, to, isReverse);
      WalkIsRange(entries, cursor.pos, from, to, isReverse, compare);
      if !cursor.Valid() {
        iter := new PyLevelDBIter<K, V>(null, null, None, false, false);
        return;
      }
      var bound := if isReverse then from else to;
      iter := new PyLevelDBIter<K, V>(this, cursor, bound, includeValue, isReverse);
      nIterators := nIterators + 1;
    }
  }

  // A seek that ended on entry p, repaired for walking backward.
  lemma AfterSeek<K(!new), V>(entries: seq<Entry<K, V>>, p: nat, target: K, compare: Comparator<K>)
    requires TotalOrder(compare) && Sorted(entries, compare) && p < |entries|
    requires forall i :: 0 <= i < p ==> compare(target, entries[i].key) > 0
    requires forall i :: p <= i < |entries| ==> compare(target, entries[i].key) <= 0
    ensures var last := if compare(target, entries[p].key) != 0 then p - 1 else p;
            StartsRange(entries, last, None, Some(target), true, compare)
  {
    forall i | 0 <= i < |entries|
      ensures compare(entries[i].key, target) <= 0 <==> i < p || (i == p && compare(target, entries[p].key) == 0)
    {
      Order(compare, target, entries[i].key, target);
      Order(compare, entries[i].key, target, entries[i].key);
      if i > p {
        Order(compare, entries[p].key, entries[i].key, target);
        Order(compare, entries[i].key, target, entries[p].key);
        Order(compare, entries[p].key, entries[i].key, entries[p].key);
      }
    }
  }

  datatype Item<K, V> = Key(key: K) | Pair(pairKey: K, value: V)

  function MakeItem<K, V>(e: Entry<K, V>, includeValue: bool): Item<K, V> {
    if includeValue then Pair(e.key, e.value) else Key(e.key)
  }

  class PyLevelDBIter<K(!new), V> {
    // Whether the iterator still refers to its database.
    var ref: bool
    var db: PyLevelDB?<K, V>
    var iterator_: Cursor?<K, V>
    var bound: Option<K>
    var includeValue: bool
    const isReverse: bool

    ghost predicate Valid()
      reads this
    {
      if ref then
        && db != null && iterator_ != null && db.Valid()
        && iterator_.entries == db.entries && iterator_.compare == db.compare
      else
        db == null && iterator_ == null && bound == None && !includeValue
    }

    ghost function Owned(): set<object>
      reads this
    {
      if iterator_ == null then {} else {iterator_}
    }

    // What is still to come.
    ghost function Remaining(): seq<Entry<K, V>>
      requires Valid()
      reads this, Owned()
    {
      if ref then Walk(iterator_.entries, iterator_.pos, bound, isReverse, iterator_.compare) else []
    }

    constructor (db: PyLevelDB?<K, V>, iterator_: Cursor?<K, V>, bound: Option<K>, includeValue: bool, isReverse: bool)
      ensures this.ref == (db != null) && this.db == db && this.iterator_ == iterator_ && this.bound == bound
      ensures this.includeValue == includeValue && this.isReverse == isReverse
    {
      this.ref, this.db, this.iterator_, this.bound := db != null, db, iterator_, bound;
      this.includeValue, this.isReverse := includeValue, isReverse;
    }

    // PyLevelDBIter_clean: give everything back, once.
    method Clean()
      requires Valid()
      modifies this, db
      ensures Valid() && !ref && Remaining() == [] && db == null && iterator_ == null
      ensures old(db) != null ==> old(db).nIterators == old(if db == null then 0 else db.nIterators) - 1
    {
      if db != null {
        db.nIterators := db.nIterators - 1;
      }
      ref, db, iterator_, bound, includeValue := false, null, null, None, false;
    }

    // PyLevelDBIter_next: the next entry of the range.  At the end the
    // iterator deregisters itself from the database, and stays at the end.
    method Next() returns (r: Option<Item<K, V>>)
      requires Valid()
      modifies this, db, Owned()
      ensures Valid()
      ensures old(Remaining()) == [] ==> r == None && !ref && Remaining() == [] && db == null && iterator_ == null
      ensures old(Remaining()) != [] ==>
                && r.Some?
                && (old(includeValue) ==> r.value == Pair(old(Remaining())[0].key, old(Remaining())[0].value))
                && (!old(includeValue) ==> r.value == Key(old(Remaining())[0].key))
                && Remaining() == old(Remaining())[1..]
                && ref && db == old(db) && iterator_ == old(iterator_) && includeValue == old(includeValue)
      ensures old(db) != null ==>
                old(db).nIterators ==
                old(if db == null then 0 else db.nIterators) - if old(Remaining()) == [] then 1 else 0
    {
      if !ref || !iterator_.Valid() {
        Clean();
        return None;
      }
      var e := iterator_.entries[iterator_.pos];
      if Past(bound, e.key, isReverse, db.compare) {
        Clean();
        return None;
      }
      r := Some(MakeItem(e, includeValue));
      if isReverse {
        iterator_.Prev();
      } else {
        iterator_.Next();
      }
    }
  }

  ghost function Items<K, V>(s: seq<Entry<K, V>>, includeValue: bool): seq<Item<K, V>> {
    seq(|s|, i requires 0 <= i < |s| => MakeItem(s[i], includeValue))
  }

  lemma ItemsStep<K, V>(all: seq<Entry<K, V>>, n: nat, rest: seq<Entry<K, V>>, includeValue: bool)
    requires n <= |all| && rest == all[n..]
    ensures rest == [] ==> all[..n] == all
    ensures rest != [] ==>
              && n < |all| && rest[1..] == all[n + 1..]
              && (includeValue ==>
                    Items(all[..n + 1], includeValue) ==
                    Items(all[..n], includeValue) + [Pair(rest[0].key, rest[0].value)])
              && (!includeValue ==>
                    Items(all[..n + 1], includeValue) == Items(all[..n], includeValue) + [Key(rest[0].key)])
  {}

  // What a listing of the range, in order or reversed, consists of.
  lemma ItemsAre<K, V>(range: seq<Entry<K, V>>, includeValue: bool, isReverse: bool)
    ensures var items := Items(if isReverse then Reverse(range) else range, includeValue);
            && |items| == |range|
            && forall k :: 0 <= k < |range| ==>
                 var e := range[if isReverse then |range| - 1 - k else k];
                 items[k] == if includeValue then Pair(e.key, e.value) else Key(e.key)
  {
    ReverseAt(range);
  }

  // list(db.RangeIter(...)): every entry of the range once, in order or
  // reversed, as a pair or, without values, as its key; and the database's
  // iterator count is back where it was.
  method List<K(!new), V>(db: PyLevelDB<K, V>, from: Option<K>, to: Option<K>, includeValue: bool, isReverse: bool)
    returns (items: seq<Item<K, V>>)
    requires db.Valid()
    modifies db
    ensures var range := Select(db.entries, from, to, db.compare);
            && |items| == |range|
            && forall k :: 0 <= k < |range| ==>
                 var e := range[if isReverse then |range| - 1 - k else k];
                 items[k] == if includeValue then Pair(e.key, e.value) else Key(e.key)
    ensures db.nIterators == old(db.nIterators)
  {
    hide Select, Reverse, Items, MakeItem, PyLevelDB.Valid, PyLevelDBIter.Valid, PyLevelDBIter.Remaining;
    var iter := db.RangeIter(from, to, includeValue, isReverse);
    ghost var all := iter.Remaining();
    ItemsAre(Select(db.entries, from, to, db.compare), includeValue, isReverse);
    items := [];
    assert all[0..] == all && items == Items(all[..0], includeValue) by {
      NoItems(all, includeValue);
    }
    while true
      invariant iter.Valid() && fresh(iter) && fresh(iter.Owned()) && (iter.db == null || iter.db == db)
      invariant |items| <= |all| && iter.Remaining() == all[|items|..]
      invariant items == Items(all[..|items|], includeValue)
      invariant iter.ref ==> iter.includeValue == includeValue && iter.db == db
      invariant !iter.ref ==> iter.Remaining() == [] && iter.db == null
      invariant db.nIterators == old(db.nIterators) + if iter.ref then 1 else 0
      decreases |iter.Remaining()|
    {
      ItemsStep(all, |items|, iter.Remaining(), includeValue);
      var r := iter.Next();
      if r == None {
        break;
      }
      items := items + [r.value];
    }
  }

  lemma NoItems<K, V>(all: seq<Entry<K, V>>, includeValue: bool)
    ensures Items(all[..0], includeValue) == []
  {}
}
