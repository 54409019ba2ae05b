/**
 * The reminder collection of App.tsx as values: the key index built from
 * the list, insert-if-absent by append-and-sort, and remove-by-key by
 * filtering. Keys are compared in code-unit order (`localeCompare` orders
 * two keys of the same `YYYY-MM-DD` shape the same way).
 */
module Reminders {
  import opened Wrappers
  import opened Text

  /** A reminder: its ISO date key and an icon the core never inspects. */
  datatype Reminder = Reminder(date: string, icon: string)

  /** The collection invariant: strictly ascending by key, hence no key twice. */
  predicate SortedByKey(rs: seq<Reminder>)
  {
    forall i, j :: 0 <= i < j < |rs| ==> LexLess(rs[i].date, rs[j].date)
  }

  /** Ascending by key with ties allowed: what sorting by the key comparator gives. */
  predicate OrderedByKey(rs: seq<Reminder>)
  {
    forall i, j :: 0 <= i < j < |rs| ==> !LexLess(rs[j].date, rs[i].date)
  }

  predicate HasKey(rs: seq<Reminder>, key: string)
  {
    exists r :: r in rs && r.date == key
  }

  /**
   * `remindersMap` (App.tsx:16-18): a map from each reminder's key to the
   * reminder, built in list order so that a later entry overwrites an
   * earlier one with the same key.
   */
  function IndexByDate(rs: seq<Reminder>): (index: map<string, Reminder>)
    ensures forall key :: key in index <==> HasKey(rs, key)
    ensures forall key :: key in index ==> index[key] in rs && index[key].date == key
  {
    if rs == [] then map[]
    else
      var prefix, last := rs[..|rs| - 1], rs[|rs| - 1];
      assert rs == prefix + [last];
      IndexByDate(prefix)[last.date := last]
  }

  /** `Map.prototype.get` (App.tsx:132, components/Calendar.tsx:74): the
      entry for `key`, or nothing when the map has no such key. */
  function Find(index: map<string, Reminder>, key: string): (r: Option<Reminder>)
    ensures r.None? <==> key !in index
    ensures forall v :: r == Some(v) <==> key in index && index[key] == v
  {
    if key in index then Some(index[key]) else None
  }

  /** In a sorted collection a key finds exactly the reminder with that key,
      and nothing when no reminder has it. */
  lemma FindExactly(rs: seq<Reminder>, key: string, r: Reminder)
    requires SortedByKey(rs)
    ensures Find(IndexByDate(rs), key) == Some(r) <==> r in rs && r.date == key
    ensures Find(IndexByDate(rs), key) == None <==> !HasKey(rs, key)
  {
    var index := IndexByDate(rs);
    if r in rs && r.date == key {
      var x := index[key];
      var i, j :| 0 <= i < |rs| && rs[i] == x && 0 <= j < |rs| && rs[j] == r;
      if i != j {
        LexIrreflexive(key);
      }
    }
  }

  /** `[...rs, x]` with `x` moved left past every element of greater key. */
  function InsertByKey(sorted: seq<Reminder>, x: Reminder): (r: seq<Reminder>)
    ensures multiset(r) == multiset(sorted) + multiset{x}
  {
    if sorted == [] then [x]
    else
      var prefix, last := sorted[..|sorted| - 1], sorted[|sorted| - 1];
      assert sorted == prefix + [last];
      if LexLess(x.date, last.date) then InsertByKey(prefix, x) + [last] else sorted + [x]
  }

  /** A stable sort by key, as `Array.prototype.sort` is. */
  function SortByKey(rs: seq<Reminder>): (r: seq<Reminder>)
    ensures multiset(r) == multiset(rs)
  {
    if rs == [] then []
    else
      assert rs == rs[..|rs| - 1] + [rs[|rs| - 1]];
      InsertByKey(SortByKey(rs[..|rs| - 1]), rs[|rs| - 1])
  }

  lemma LexLeqTransitive(a: string, b: string, c: string)
    requires !LexLess(b, a) && !LexLess(c, b)
    ensures !LexLess(c, a)
  {
    LexTotal(a, b);
    if LexLess(c, a) && LexLess(a, b) {
      LexTransitive(c, a, b);
    }
  }

  lemma {:induction false} InsertKeepsOrder(sorted: seq<Reminder>, x: Reminder)
    requires OrderedByKey(sorted)
    ensures OrderedByKey(InsertByKey(sorted, x))
  {
    if sorted != [] {
      var prefix, last := sorted[..|sorted| - 1], sorted[|sorted| - 1];
      if LexLess(x.date, last.date) {
        assert OrderedByKey(prefix) by {
          forall i, j | 0 <= i < j < |prefix| ensures !LexLess(prefix[j].date, prefix[i].date) {
            assert prefix[i] == sorted[i] && prefix[j] == sorted[j];
          }
        }
        InsertKeepsOrder(prefix, x);
        InsertBeforeLast(sorted, x);
      } else {
        InsertAfterLast(sorted, x);
      }
    }
  }

  lemma InsertBeforeLast(sorted: seq<Reminder>, x: Reminder)
    requires OrderedByKey(sorted) && sorted != []
    requires LexLess(x.date, sorted[|sorted| - 1].date)
    requires OrderedByKey(InsertByKey(sorted[..|sorted| - 1], x))
    ensures OrderedByKey(InsertByKey(sorted, x))
  {
    var prefix, last := sorted[..|sorted| - 1], sorted[|sorted| - 1];
    var front := InsertByKey(prefix, x);
    assert InsertByKey(sorted, x) == front + [last];
    forall i | 0 <= i < |front|
      ensures !LexLess(last.date, front[i].date)
    {
      assert front[i] in multiset(prefix) + multiset{x};
      if front[i] == x {
        LexAsymmetric(x.date, last.date);
      } else {
        var k :| 0 <= k < |prefix| && prefix[k] == front[i];
        assert sorted[k] == front[i];
      }
    }
  }

  lemma InsertAfterLast(sorted: seq<Reminder>, x: Reminder)
    requires OrderedByKey(sorted) && sorted != []
    requires !LexLess(x.date, sorted[|sorted| - 1].date)
    ensures OrderedByKey(InsertByKey(sorted, x))
  {
    var last := sorted[|sorted| - 1];
    assert InsertByKey(sorted, x) == sorted + [x];
    forall i | 0 <= i < |sorted|
      ensures !LexLess(x.date, sorted[i].date)
    {
      if i < |sorted| - 1 {
        LexLeqTransitive(sorted[i].date, last.date, x.date);
      }
    }
  }

  /** Sorting yields an ordered permutation of its input. */
  lemma {:induction false} SortOrders(rs: seq<Reminder>)
    ensures OrderedByKey(SortByKey(rs)) && multiset(SortByKey(rs)) == multiset(rs)
  {
    if rs != [] {
      SortOrders(rs[..|rs| - 1]);
      InsertKeepsOrder(SortByKey(rs[..|rs| - 1]), rs[|rs| - 1]);
    }
  }

  /** Sorting an already ordered list leaves it as it is. */
  lemma {:induction false} SortOfOrdered(rs: seq<Reminder>)
    requires OrderedByKey(rs)
    ensures SortByKey(rs) == rs
  {
    if rs != [] {
      var prefix, last := rs[..|rs| - 1], rs[|rs| - 1];
      assert OrderedByKey(prefix) by {
        forall i, j | 0 <= i < j < |prefix| ensures !LexLess(prefix[j].date, prefix[i].date) {
          assert prefix[i] == rs[i] && prefix[j] == rs[j];
        }
      }
      SortOfOrdered(prefix);
      assert InsertByKey(prefix, last) == rs by {
        assert rs == prefix + [last];
        if prefix != [] {
          assert !LexLess(last.date, rs[|rs| - 2].date);
        }
      }
    }
  }

  /** Inserting a new key into a strictly sorted list keeps it strictly sorted. */
  lemma {:induction false} InsertKeepsSorted(sorted: seq<Reminder>, x: Reminder)
    requires SortedByKey(sorted) && !HasKey(sorted, x.date)
    ensures SortedByKey(InsertByKey(sorted, x))
  {
    if sorted != [] {
      var prefix, last := sorted[..|sorted| - 1], sorted[|sorted| - 1];
      if LexLess(x.date, last.date) {
        assert SortedByKey(prefix) && !HasKey(prefix, x.date) by {
          forall r | r in prefix ensures r in sorted {
            var k :| 0 <= k < |prefix| && prefix[k] == r;
            assert sorted[k] == r;
          }
        }
        InsertKeepsSorted(prefix, x);
        InsertNewBeforeLast(sorted, x);
      } else {
        InsertNewAfterLast(sorted, x);
      }
    }
  }

  lemma InsertNewBeforeLast(sorted: seq<Reminder>, x: Reminder)
    requires SortedByKey(sorted) && sorted != []
    requires LexLess(x.date, sorted[|sorted| - 1].date)
    requires SortedByKey(InsertByKey(sorted[..|sorted| - 1], x))
    ensures SortedByKey(InsertByKey(sorted, x))
  {
    var prefix, last := sorted[..|sorted| - 1], sorted[|sorted| - 1];
    var front := InsertByKey(prefix, x);
    assert InsertByKey(sorted, x) == front + [last];
    forall i | 0 <= i < |front|
      ensures LexLess(front[i].date, last.date)
    {
      assert front[i] in multiset(prefix) + multiset{x};
      if front[i] != x {
        var k :| 0 <= k < |prefix| && prefix[k] == front[i];
        assert sorted[k] == front[i];
      }
    }
  }

  lemma InsertNewAfterLast(sorted: seq<Reminder>, x: Reminder)
    requires SortedByKey(sorted) && sorted != [] && !HasKey(sorted, x.date)
    requires !LexLess(x.date, sorted[|sorted| - 1].date)
    ensures SortedByKey(InsertByKey(sorted, x))
  {
    var last := sorted[|sorted| - 1];
    assert InsertByKey(sorted, x) == sorted + [x];
    assert last in sorted;
    LexTotal(x.date, last.date);
    forall i | 0 <= i < |sorted|
      ensures LexLess(sorted[i].date, x.date)
    {
      if i < |sorted| - 1 {
        LexTransitive(sorted[i].date, last.date, x.date);
      }
    }
  }

  /** Two strictly sorted lists with the same elements are the same list, so
      any correct sort of a list with distinct keys gives this model's result. */
  lemma {:induction false} SortedUnique(a: seq<Reminder>, b: seq<Reminder>)
    requires SortedByKey(a) && SortedByKey(b) && multiset(a) == multiset(b)
    ensures a == b
  {
    if a != [] && b != [] {
      SameHead(a, b);
      SameTail(a, b);
      assert SortedByKey(a[1..]) && SortedByKey(b[1..]);
      SortedUnique(a[1..], b[1..]);
      assert a == [a[0]] + a[1..] && b == [b[0]] + b[1..];
    }
  }

  lemma SameTail(a: seq<Reminder>, b: seq<Reminder>)
    requires a != [] && b != [] && a[0] == b[0] && multiset(a) == multiset(b)
    ensures multiset(a[1..]) == multiset(b[1..])
  {
    assert a == [a[0]] + a[1..] && b == [b[0]] + b[1..];
    assert multiset(a[1..]) == multiset(a) - multiset{a[0]};
    assert multiset(b[1..]) == multiset(b) - multiset{b[0]};
  }

  lemma SameHead(a: seq<Reminder>, b: seq<Reminder>)
    requires SortedByKey(a) && SortedByKey(b) && multiset(a) == multiset(b)
    requires a != [] && b != []
    ensures a[0] == b[0]
  {
    assert a[0] in multiset(b) && b[0] in multiset(a);
    var i :| 0 <= i < |b| && b[i] == a[0];
    var j :| 0 <= j < |a| && a[j] == b[0];
    if i != 0 && j != 0 {
      LexTransitive(b[0].date, b[i].date, a[j].date);
      LexIrreflexive(b[0].date);
    } else if i != 0 {
      LexIrreflexive(b[0].date);
    } else if j != 0 {
      LexIrreflexive(a[0].date);
    }
  }

  /**
   * The list `handleAddReminder` stores (App.tsx:24-28): unchanged when the
   * key is already present, otherwise the old list with `x` added, sorted.
   * Either way the key is present afterwards.
   */
  function AddReminder(rs: seq<Reminder>, x: Reminder): (r: seq<Reminder>)
    ensures HasKey(rs, x.date) ==> r == rs
    ensures !HasKey(rs, x.date) ==> multiset(r) == multiset(rs) + multiset{x}
    ensures HasKey(r, x.date)
  {
    if x.date in IndexByDate(rs) then rs
    else
      var r := SortByKey(rs + [x]);
      assert x in multiset(r);
      r
  }

  /** Adding a new key to a valid collection: one more element, the old ones
      kept, and still strictly sorted, namely `x` inserted in key order. */
  lemma AddAbsent(rs: seq<Reminder>, x: Reminder)
    requires SortedByKey(rs) && !HasKey(rs, x.date)
    ensures AddReminder(rs, x) == InsertByKey(rs, x)
    ensures SortedByKey(AddReminder(rs, x))
    ensures |AddReminder(rs, x)| == |rs| + 1
    ensures x in AddReminder(rs, x) && forall y :: y in rs ==> y in AddReminder(rs, x)
  {
    AddAbsentInserts(rs, x);
    InsertKeepsSorted(rs, x);
    InsertContents(rs, x);
  }

  lemma InsertContents(s: seq<Reminder>, x: Reminder)
    ensures |InsertByKey(s, x)| == |s| + 1
    ensures x in InsertByKey(s, x) && forall y :: y in s ==> y in InsertByKey(s, x)
  {
    var r := InsertByKey(s, x);
    assert |multiset(r)| == |s| + 1;
    assert x in multiset(r);
    forall y | y in s ensures y in r {
      assert y in multiset(r);
    }
  }

  lemma AddAbsentInserts(rs: seq<Reminder>, x: Reminder)
    requires SortedByKey(rs) && !HasKey(rs, x.date)
    ensures AddReminder(rs, x) == InsertByKey(rs, x)
  {
    assert (rs + [x])[..|rs|] == rs;
    assert OrderedByKey(rs) by {
      forall i, j | 0 <= i < j < |rs|
        ensures !LexLess(rs[j].date, rs[i].date)
      {
        LexAsymmetric(rs[i].date, rs[j].date);
      }
    }
    SortOfOrdered(rs);
  }

  /** Adding preserves the collection invariant, present key or not. */
  lemma AddKeepsSorted(rs: seq<Reminder>, x: Reminder)
    requires SortedByKey(rs)
    ensures SortedByKey(AddReminder(rs, x))
  {
    if !HasKey(rs, x.date) {
      AddAbsent(rs, x);
    }
  }

  /** A second add for the same key changes nothing, whatever its icon. */
  lemma AddIdempotent(rs: seq<Reminder>, x: Reminder, y: Reminder)
    requires y.date == x.date
    ensures AddReminder(AddReminder(rs, x), y) == AddReminder(rs, x)
  {
  }

  /** The filter of `handleRemoveReminder` (App.tsx:34): keeps, in order,
      the reminders whose key differs from `key`. */
  function RemoveKey(rs: seq<Reminder>, key: string): (kept: seq<Reminder>)
    ensures |kept| <= |rs|
  {
    if rs == [] then []
    else
      assert rs == [rs[0]] + rs[1..];
      (if rs[0].date != key then [rs[0]] else []) + RemoveKey(rs[1..], key)
  }

  /** The filter keeps exactly the reminders with another key, so none with
      `key` is left. */
  lemma {:induction false} RemoveContents(rs: seq<Reminder>, key: string)
    ensures forall x :: x in RemoveKey(rs, key) <==> x in rs && x.date != key
    ensures !HasKey(RemoveKey(rs, key), key)
  {
    if rs != [] {
      RemoveContents(rs[1..], key);
      assert rs == [rs[0]] + rs[1..];
    }
  }

  /** Filtering a concatenation filters each part in place: the kept
      reminders stay in their original relative order. */
  lemma {:induction false} RemoveKeepsOrder(a: seq<Reminder>, b: seq<Reminder>, key: string)
    ensures RemoveKey(a + b, key) == RemoveKey(a, key) + RemoveKey(b, key)
  {
    if a != [] {
      var head := if a[0].date != key then [a[0]] else [];
      assert (a + b)[0] == a[0] && (a + b)[1..] == a[1..] + b;
      assert RemoveKey(a + b, key) == head + RemoveKey(a[1..] + b, key);
      assert RemoveKey(a, key) == head + RemoveKey(a[1..], key);
      RemoveKeepsOrder(a[1..], b, key);
    } else {
      assert a + b == b;
    }
  }

  /** Removing a key nobody has is a no-op. */
  lemma {:induction false} RemoveAbsent(rs: seq<Reminder>, key: string)
    requires !HasKey(rs, key)
    ensures RemoveKey(rs, key) == rs
  {
    if rs != [] {
      assert rs[0] in rs;
      assert !HasKey(rs[1..], key) by {
        forall r | r in rs[1..] ensures r.date != key {
          assert r in rs;
        }
      }
      RemoveAbsent(rs[1..], key);
      assert rs == [rs[0]] + rs[1..];
    }
  }

  /** Removing preserves the collection invariant. */
  lemma {:induction false} RemoveKeepsSorted(rs: seq<Reminder>, key: string)
    requires SortedByKey(rs)
    ensures SortedByKey(RemoveKey(rs, key))
  {
    if rs != [] {
      var rest := RemoveKey(rs[1..], key);
      RemoveKeepsSorted(rs[1..], key);
      RemoveContents(rs[1..], key);
      forall i | 0 <= i < |rest|
        ensures LexLess(rs[0].date, rest[i].date)
      {
        assert rest[i] in rs[1..];
        var k :| 0 <= k < |rs[1..]| && rs[1..][k] == rest[i];
        assert rs[k + 1] == rest[i];
      }
    }
  }

  /** After a remove, looking the key up finds nothing. */
  lemma RemoveThenFind(rs: seq<Reminder>, key: string)
    ensures Find(IndexByDate(RemoveKey(rs, key)), key) == None
  {
    RemoveContents(rs, key);
  }
}
