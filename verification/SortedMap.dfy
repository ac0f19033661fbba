/** A `BTreeMap` from text to text, as the list of its entries in the order of their names. */
module SortedMap {
  import opened Text

  type Entries = seq<(string, string)>

  /** The byte order of two names. */
  predicate Before(a: string, b: string) {
    b != "" && (a == "" || a[0] < b[0] || (a[0] == b[0] && Before(a[1..], b[1..])))
  }

  predicate AllAfter(name: string, entries: Entries) {
    forall e :: e in entries ==> Before(name, e.0)
  }

  predicate IsSorted(entries: Entries) {
    entries == [] || (AllAfter(entries[0].0, entries[1..]) && IsSorted(entries[1..]))
  }

  /** Set the value of a name, in its place. */
  function Insert(entries: Entries, name: string, value: string): Entries {
    if entries == [] || Before(name, entries[0].0) then [(name, value)] + entries
    else if name == entries[0].0 then [(name, value)] + entries[1..]
    else [entries[0]] + Insert(entries[1..], name, value)
  }

  function Lookup(entries: Entries, name: string): Option<string> {
    if entries == [] then None
    else if entries[0].0 == name then Some(entries[0].1)
    else Lookup(entries[1..], name)
  }

  lemma {:induction false} BeforeIsTotal(a: string, b: string)
    ensures Before(a, b) || a == b || Before(b, a)
  {
    if a != "" && b != "" && a[0] == b[0] {
      BeforeIsTotal(a[1..], b[1..]);
      assert a == [a[0]] + a[1..] && b == [b[0]] + b[1..];
    }
  }

  lemma {:induction false} BeforeIsTransitive(a: string, b: string, c: string)
    requires Before(a, b) && Before(b, c)
    ensures Before(a, c)
  {
    if a != "" && a[0] == b[0] == c[0] { BeforeIsTransitive(a[1..], b[1..], c[1..]); }
  }

  lemma {:induction false} NotBeforeItself(a: string)
    ensures !Before(a, a)
  {
    if a != "" { NotBeforeItself(a[1..]); }
  }

  /** `a` ends inside `b`, or has the smaller character where they first differ. */
  ghost predicate PrecedesAt(a: string, b: string, n: nat) {
    n <= |a| && n < |b| && a[..n] == b[..n] && (n == |a| || a[n] < b[n])
  }

  lemma FirstsAgree(a: string, b: string, n: nat)
    requires PrecedesAt(a, b, n) && n > 0
    ensures a != "" && b != "" && a[0] == b[0]
  {
    assert a[..n][0] == a[0] && b[..n][0] == b[0];
  }

  lemma {:induction false} BeforeExactly(a: string, b: string)
    ensures Before(a, b) <==> exists n: nat :: PrecedesAt(a, b, n)
  {
    if a == "" || b == "" || a[0] != b[0] {
      if Before(a, b) { assert PrecedesAt(a, b, 0); }
      if exists n: nat :: PrecedesAt(a, b, n) {
        var n: nat :| PrecedesAt(a, b, n);
        if n > 0 { FirstsAgree(a, b, n); }
      }
    } else {
      BeforeExactly(a[1..], b[1..]);
      if exists n: nat :: PrecedesAt(a[1..], b[1..], n) {
        var n: nat :| PrecedesAt(a[1..], b[1..], n);
        assert a[..n + 1] == [a[0]] + a[1..][..n] && b[..n + 1] == [b[0]] + b[1..][..n];
        assert PrecedesAt(a, b, n + 1);
      }
      if exists n: nat :: PrecedesAt(a, b, n) {
        var n: nat :| PrecedesAt(a, b, n);
        assert a[..n][1..] == a[1..][..n - 1] && b[..n][1..] == b[1..][..n - 1];
        assert PrecedesAt(a[1..], b[1..], n - 1);
      }
    }
  }

  /** Everything after a later name is after an earlier one. */
  lemma AfterLater(a: string, b: string, entries: Entries)
    requires Before(a, b) && AllAfter(b, entries)
    ensures AllAfter(a, entries)
  {
    forall e | e in entries ensures Before(a, e.0) { BeforeIsTransitive(a, b, e.0); }
  }

  /** Inserting adds one entry, and drops at most the old one of that name. */
  lemma {:induction false} InsertedEntries(entries: Entries, name: string, value: string)
    ensures forall e :: e in Insert(entries, name, value) ==> e == (name, value) || e in entries
  {
    hide Before;
    if entries != [] && !Before(name, entries[0].0) && name != entries[0].0 {
      InsertedEntries(entries[1..], name, value);
    }
  }

  lemma {:induction false} InsertKeepsSorted(entries: Entries, name: string, value: string)
    requires IsSorted(entries)
    ensures IsSorted(Insert(entries, name, value))
  {
    hide Before;
    var r := Insert(entries, name, value);
    if entries == [] {
    } else if Before(name, entries[0].0) {
      assert r[1..] == entries;
      AfterLater(name, entries[0].0, entries[1..]);
      assert AllAfter(name, entries);
    } else if name == entries[0].0 {
      assert r[1..] == entries[1..];
    } else {
      BeforeIsTotal(name, entries[0].0);
      InsertKeepsSorted(entries[1..], name, value);
      InsertedEntries(entries[1..], name, value);
      assert r[1..] == Insert(entries[1..], name, value);
    }
  }

  /** The map law: the name just set has its value, and every other name what it had. */
  lemma {:induction false} InsertThenLookup(entries: Entries, name: string, value: string, other: string)
    ensures Lookup(Insert(entries, name, value), other) == if other == name then Some(value) else Lookup(entries, other)
  {
    hide Before;
    var r := Insert(entries, name, value);
    if entries == [] || Before(name, entries[0].0) {
      assert r[1..] == entries;
    } else if name == entries[0].0 {
      assert r[1..] == entries[1..];
    } else {
      assert r[1..] == Insert(entries[1..], name, value);
      InsertThenLookup(entries[1..], name, value, other);
    }
  }

  /** A name after all others goes to the end. */
  lemma {:induction false} InsertLast(entries: Entries, name: string, value: string)
    requires forall e :: e in entries ==> Before(e.0, name)
    ensures Insert(entries, name, value) == entries + [(name, value)]
  {
    if entries != [] {
      var first := entries[0];
      assert first in entries;
      if Before(name, first.0) { BeforeIsTransitive(name, first.0, name); }
      NotBeforeItself(name);
      InsertLast(entries[1..], name, value);
      assert entries == [first] + entries[1..];
    }
  }

  lemma {:induction false} SortedParts(front: Entries, back: Entries)
    requires IsSorted(front + back)
    ensures IsSorted(back)
    ensures forall e, g :: e in front && g in back ==> Before(e.0, g.0)
  {
    hide Before;
    if front == [] {
      assert front + back == back;
    } else {
      assert (front + back)[1..] == front[1..] + back;
      SortedParts(front[1..], back);
      forall e, g | e in front && g in back ensures Before(e.0, g.0) {
        assert g in front[1..] + back;
        assert e == front[0] || e in front[1..];
      }
    }
  }
}
