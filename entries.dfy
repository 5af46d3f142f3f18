/** Entries held by the skip list, and reference definitions, on plain
    sequences, of what the list's keyed operations do to its in-order
    contents. */
module Entries {

  datatype Option<+T> = None | Some(value: T)

  /** An entry: its key alone decides the order; the payload rides along. */
  datatype Entry = Entry(key: int, value: int)

  /** Three-way comparison of entries, negative, zero or positive as the
      first key is below, equal to or above the second. */
  function Compare(a: Entry, b: Entry): (r: int)
    ensures r < 0 <==> a.key < b.key
    ensures r == 0 <==> a.key == b.key
  {
    if a.key < b.key then -1 else if a.key == b.key then 0 else 1
  }

  /** Keys strictly ascending: what the keyed operations keep. */
  predicate Sorted(s: seq<Entry>)
  {
    forall i, j :: 0 <= i < j < |s| ==> s[i].key < s[j].key
  }

  /** Index of the first entry whose key is not below k, scanning from the front. */
  function LowerBound(s: seq<Entry>, k: int): (r: nat)
    ensures r <= |s|
  {
    if s == [] || s[0].key >= k then 0 else 1 + LowerBound(s[1..], k)
  }

  /** The first entry with key k, if any: the reference for a keyed lookup. */
  function Find(s: seq<Entry>, k: int): Option<Entry>
  {
    if s == [] then None
    else if s[0].key == k then Some(s[0])
    else Find(s[1..], k)
  }

  /** c is a cut for key k: every entry before it has a smaller key and
      the entry at it, if any, does not. This is where a search by key
      stops, sorted or not. */
  predicate IsCut(s: seq<Entry>, k: int, c: int)
  {
    0 <= c <= |s| && (c == 0 || s[c - 1].key < k) && (c == |s| || s[c].key >= k)
  }

  /** The first entry whose key is not below k, with its index; (None, 0)
      when there is none. */
  function Successor(s: seq<Entry>, k: int): (r: (Option<Entry>, nat))
    ensures r.0.Some? ==> r.1 < |s| && r.0.value == s[r.1]
    ensures r.0.None? ==> r.1 == 0
  {
    var c := LowerBound(s, k);
    if c < |s| then (Some(s[c]), c) else (None, 0)
  }

  /** Reference keyed insert on a sorted sequence: an entry with the same key
      is replaced and returned, otherwise e goes before the first larger key. */
  function InsertKeyed(s: seq<Entry>, e: Entry): (seq<Entry>, Option<Entry>)
  {
    if s == [] then ([e], None)
    else if e.key < s[0].key then ([e] + s, None)
    else if e.key == s[0].key then ([e] + s[1..], Some(s[0]))
    else
      var (t, r) := InsertKeyed(s[1..], e);
      ([s[0]] + t, r)
  }

  /** Reference keyed delete: the first entry with key k is removed and returned. */
  function DeleteKeyed(s: seq<Entry>, k: int): (seq<Entry>, Option<Entry>)
  {
    if s == [] then ([], None)
    else if s[0].key == k then (s[1..], Some(s[0]))
    else
      var (t, r) := DeleteKeyed(s[1..], k);
      ([s[0]] + t, r)
  }

  /** Keyed inserts of es in turn; the second component has one slot per input. */
  function InsertMany(s: seq<Entry>, es: seq<Entry>): (seq<Entry>, seq<Option<Entry>>)
    decreases |es|
  {
    if es == [] then (s, [])
    else
      var (t, r) := InsertKeyed(s, es[0]);
      var (u, rs) := InsertMany(t, es[1..]);
      (u, [r] + rs)
  }

  /** Keyed deletes of the keys of es in turn, one result slot per input. */
  function DeleteMany(s: seq<Entry>, es: seq<Entry>): (seq<Entry>, seq<Option<Entry>>)
    decreases |es|
  {
    if es == [] then (s, [])
    else
      var (t, r) := DeleteKeyed(s, es[0].key);
      var (u, rs) := DeleteMany(t, es[1..]);
      (u, [r] + rs)
  }

  /** What an insert does at cut c: overwrite an entry with e's key found
      there, handing back the old one, or else insert e at c. */
  function PutAt(s: seq<Entry>, c: nat, e: Entry): (seq<Entry>, Option<Entry>)
    requires c <= |s|
  {
    if c < |s| && s[c].key == e.key then (s[c := e], Some(s[c]))
    else (s[..c] + [e] + s[c..], None)
  }

  /** What a delete of key k does at cut c: remove the entry there if it has
      key k, handing it back. */
  function RemoveAt(s: seq<Entry>, c: nat, k: int): (seq<Entry>, Option<Entry>)
    requires c <= |s|
  {
    if c < |s| && s[c].key == k then (s[..c] + s[c + 1..], Some(s[c]))
    else (s, None)
  }

  /** What a lookup of key k reads at cut c: the entry there if it has key
      k, else None. */
  function GetAt(s: seq<Entry>, c: nat, k: int): Option<Entry>
    requires c <= |s|
  {
    if c < |s| && s[c].key == k then Some(s[c]) else None
  }

  /** x is what a lookup of k that stops at some cut for k reports. */
  ghost predicate LookedUp(s: seq<Entry>, k: int, x: Option<Entry>)
  {
    exists c :: IsCut(s, k, c) && x == GetAt(s, c, k)
  }

  // ---------------------------------------------------------------------
  // Lemmas connecting a search's local stopping condition to the references

  /** In a sorted sequence, a cut c with every key before it below k and the
      key at it not below k is the lower bound. */
  lemma {:induction false} LowerBoundUnique(s: seq<Entry>, k: int, c: nat)
    requires Sorted(s) && c <= |s|
    requires c == 0 || s[c - 1].key < k
    requires c == |s| || s[c].key >= k
    ensures c == LowerBound(s, k)
  {
    if s != [] && s[0].key < k {
      assert Sorted(s[1..]);
      LowerBoundUnique(s[1..], k, c - 1);
    } else {
      assert forall i :: 0 <= i < |s| ==> s[0].key <= s[i].key;
    }
  }

  /** In a sorted sequence the keyed lookup is decided at the lower bound. */
  lemma {:induction false} FindAtLowerBound(s: seq<Entry>, k: int)
    requires Sorted(s)
    ensures Find(s, k) == (var c := LowerBound(s, k);
                           if c < |s| && s[c].key == k then Some(s[c]) else None)
  {
    if s != [] && s[0].key < k {
      assert Sorted(s[1..]);
      FindAtLowerBound(s[1..], k);
    } else if s != [] && s[0].key > k {
      assert Find(s[1..], k) == None by { NoneBelowFirst(s[1..], k); }
    }
  }

  /** No key of a sorted sequence whose first key exceeds k equals k. */
  lemma {:induction false} NoneBelowFirst(s: seq<Entry>, k: int)
    requires Sorted(s)
    requires forall i :: 0 <= i < |s| ==> s[i].key > k
    ensures Find(s, k) == None
  {
    if s != [] {
      NoneBelowFirst(s[1..], k);
    }
  }

  /** On a sorted sequence, the lookup at any cut for k is the keyed
      lookup, and what it reports is an entry of s with key k. */
  lemma LookedUpSorted(s: seq<Entry>, k: int, x: Option<Entry>)
    requires LookedUp(s, k, x)
    ensures x.Some? ==> x.value in s && x.value.key == k
    ensures Sorted(s) ==> x == Find(s, k)
  {
    var c :| IsCut(s, k, c) && x == GetAt(s, c, k);
    if Sorted(s) {
      LowerBoundUnique(s, k, c);
      FindAtLowerBound(s, k);
    }
  }

  /** Find returns an entry of the sequence with the asked key, and misses
      only when no entry has that key. */
  lemma {:induction false} FindSound(s: seq<Entry>, k: int)
    ensures Find(s, k).Some? ==> Find(s, k).value in s && Find(s, k).value.key == k
    ensures Find(s, k).None? <==> forall i :: 0 <= i < |s| ==> s[i].key != k
  {
    if s != [] && s[0].key != k {
      FindSound(s[1..], k);
      assert forall i :: 1 <= i < |s| ==> s[i] == s[1..][i - 1];
    }
  }

  /** The keyed insert, read off at the cut where the search stops: replace
      in place on a key match, otherwise insert at the cut. */
  lemma {:induction false} InsertKeyedAt(s: seq<Entry>, e: Entry, c: nat)
    requires Sorted(s) && c <= |s|
    requires c == 0 || s[c - 1].key < e.key
    requires c == |s| || s[c].key >= e.key
    ensures InsertKeyed(s, e) ==
              if c < |s| && s[c].key == e.key then (s[c := e], Some(s[c]))
              else (s[..c] + [e] + s[c..], None)
  {
    if s == [] {
      assert s[..c] + [e] + s[c..] == [e];
    } else if s[0].key < e.key {
      var tail := s[1..];
      assert Sorted(tail);
      InsertKeyedAt(tail, e, c - 1);
      assert InsertKeyed(s, e) == ([s[0]] + InsertKeyed(tail, e).0, InsertKeyed(tail, e).1);
      if c < |s| && s[c].key == e.key {
        ConsUpdate(s, e, c);
      } else {
        ConsSplice(s, e, c);
      }
    } else {
      assert forall i :: 0 <= i < |s| ==> s[0].key <= s[i].key;
      if s[0].key == e.key {
        assert [e] + s[1..] == s[0 := e];
      } else {
        assert s[..0] + [e] + s[0..] == [e] + s;
      }
    }
  }

  /** Putting the head back in front of an update of the tail. */
  lemma ConsUpdate(s: seq<Entry>, e: Entry, c: nat)
    requires 1 <= c < |s|
    ensures [s[0]] + s[1..][c - 1 := e] == s[c := e]
  {
  }

  /** Putting the head back in front of an insertion into the tail. */
  lemma ConsSplice(s: seq<Entry>, e: Entry, c: nat)
    requires 1 <= c <= |s|
    ensures [s[0]] + (s[1..][..c - 1] + [e] + s[1..][c - 1..]) == s[..c] + [e] + s[c..]
  {
    assert s[1..][..c - 1] == s[1..c] && s[1..][c - 1..] == s[c..];
    assert [s[0]] + s[1..c] == s[..c];
  }

  /** The keyed delete, read off at the cut where the search stops. */
  lemma ConsRemove(s: seq<Entry>, c: nat)
    requires 1 <= c < |s|
    ensures [s[0]] + (s[1..][..c - 1] + s[1..][c..]) == s[..c] + s[c + 1..]
  { assert s[1..][..c - 1] == s[1..c] && s[1..][c..] == s[c + 1..]; assert [s[0]] + s[1..c] == s[..c]; }

  lemma {:induction false} DeleteKeyedAt(s: seq<Entry>, k: int, c: nat)
    requires Sorted(s) && c <= |s|
    requires c == 0 || s[c - 1].key < k
    requires c == |s| || s[c].key >= k
    ensures DeleteKeyed(s, k) ==
              if c < |s| && s[c].key == k then (s[..c] + s[c + 1..], Some(s[c]))
              else (s, None)
  {
    if s != [] && s[0].key < k {
      assert Sorted(s[1..]);
      DeleteKeyedAt(s[1..], k, c - 1);
      if c < |s| && s[c].key == k {
        ConsRemove(s, c);
      } else {
        assert [s[0]] + s[1..] == s;
      }
    } else if s != [] && s[0].key > k {
      assert forall i :: 0 <= i < |s| ==> s[i].key != k by {
        forall i | 0 <= i < |s| ensures s[i].key != k {
          if i > 0 { assert s[0].key < s[i].key; }
        }
      }
      NoKeyDeleteIdentity(s, k);
    } else if s != [] {
      assert forall i :: 0 <= i < |s| ==> s[0].key <= s[i].key;
      assert c == 0;
      assert s[..0] + s[1..] == s[1..];
    }
  }

  /** Deleting a key nobody has changes nothing. */
  lemma {:induction false} NoKeyDeleteIdentity(s: seq<Entry>, k: int)
    requires forall i :: 0 <= i < |s| ==> s[i].key != k
    ensures DeleteKeyed(s, k) == (s, None)
  {
    if s != [] {
      NoKeyDeleteIdentity(s[1..], k);
      assert [s[0]] + s[1..] == s;
    }
  }

  // ---------------------------------------------------------------------
  // Properties of the references

  /** A keyed insert keeps keys strictly ascending. */
  lemma {:induction false} InsertKeyedSorted(s: seq<Entry>, e: Entry)
    requires Sorted(s)
    ensures Sorted(InsertKeyed(s, e).0)
    ensures |InsertKeyed(s, e).0| == |s| + (if InsertKeyed(s, e).1.Some? then 0 else 1)
  {
    var c := LowerBound(s, e.key);
    LowerBoundSplits(s, e.key);
    InsertKeyedAt(s, e, c);
    if c < |s| && s[c].key == e.key {
      SortedUpdate(s, c, e);
    } else {
      SortedSplice(s, c, e);
    }
  }

  /** Replacing an entry by one with the same key keeps the order. */
  lemma SortedUpdate(s: seq<Entry>, c: nat, e: Entry)
    requires Sorted(s) && c < |s| && s[c].key == e.key
    ensures Sorted(s[c := e])
  {
    var t := s[c := e];
    assert forall i :: 0 <= i < |t| ==> t[i].key == s[i].key;
  }

  /** Inserting e between the keys below its own and the keys above keeps
      the order. */
  lemma SortedSplice(s: seq<Entry>, c: nat, e: Entry)
    requires Sorted(s) && c <= |s|
    requires forall i :: 0 <= i < c ==> s[i].key < e.key
    requires forall i :: c <= i < |s| ==> s[i].key > e.key
    ensures Sorted(s[..c] + [e] + s[c..])
  {
    var t := s[..c] + [e] + s[c..];
    assert forall i :: 0 <= i < |t| ==> t[i] == (if i < c then s[i] else if i == c then e else s[i - 1]);
  }

  /** Removing an entry keeps the order. */
  lemma SortedRemove(s: seq<Entry>, c: nat)
    requires Sorted(s) && c < |s|
    ensures Sorted(s[..c] + s[c + 1..])
    ensures forall i :: 0 <= i < |s| - 1 ==> (s[..c] + s[c + 1..])[i] == (if i < c then s[i] else s[i + 1])
  {
    var t := s[..c] + s[c + 1..];
    assert forall i :: 0 <= i < |t| ==> t[i] == (if i < c then s[i] else s[i + 1]);
  }


  /** The lower bound splits a sorted sequence into smaller and not-smaller keys. */
  lemma {:induction false} LowerBoundSplits(s: seq<Entry>, k: int)
    requires Sorted(s)
    ensures forall i :: 0 <= i < LowerBound(s, k) ==> s[i].key < k
    ensures forall i :: LowerBound(s, k) <= i < |s| ==> s[i].key >= k
  {
    if s != [] && s[0].key < k {
      assert Sorted(s[1..]);
      LowerBoundSplits(s[1..], k);
      assert forall i :: 1 <= i < |s| ==> s[i] == s[1..][i - 1];
    }
  }

  /** After a keyed insert, looking the key up yields the inserted entry. */
  lemma {:induction false} InsertThenFind(s: seq<Entry>, e: Entry)
    ensures Find(InsertKeyed(s, e).0, e.key) == Some(e)
  {
    if s != [] && e.key > s[0].key {
      InsertThenFind(s[1..], e);
    }
  }

  /** A keyed insert leaves every other key's lookup as it was. */
  lemma {:induction false} InsertKeepsOthers(s: seq<Entry>, e: Entry, k: int)
    requires k != e.key
    ensures Find(InsertKeyed(s, e).0, k) == Find(s, k)
  {
    if s != [] && e.key > s[0].key {
      InsertKeepsOthers(s[1..], e, k);
    }
  }

  /** On a sorted sequence the keyed insert returns exactly the entry it overwrote. */
  lemma {:induction false} InsertReturnsOld(s: seq<Entry>, e: Entry)
    requires Sorted(s)
    ensures InsertKeyed(s, e).1 == Find(s, e.key)
  {
    if s != [] && e.key > s[0].key {
      assert Sorted(s[1..]);
      InsertReturnsOld(s[1..], e);
    } else if s != [] && e.key < s[0].key {
      NoneBelowFirst(s, e.key);
    }
  }

  /** A keyed delete keeps keys strictly ascending and removes the key. */
  lemma {:induction false} DeleteKeyedSorted(s: seq<Entry>, k: int)
    requires Sorted(s)
    ensures Sorted(DeleteKeyed(s, k).0)
    ensures Find(DeleteKeyed(s, k).0, k) == None
    ensures DeleteKeyed(s, k).1 == Find(s, k)
    ensures |DeleteKeyed(s, k).0| == |s| - (if DeleteKeyed(s, k).1.Some? then 1 else 0)
  {
    var c := LowerBound(s, k);
    LowerBoundSplits(s, k);
    DeleteKeyedAt(s, k, c);
    FindAtLowerBound(s, k);
    if c < |s| && s[c].key == k {
      var t := s[..c] + s[c + 1..];
      SortedRemove(s, c);
      assert forall i :: 0 <= i < |t| ==> t[i].key != k by {
        forall i | 0 <= i < |t| ensures t[i].key != k {
          if i < c { assert t[i] == s[i]; } else { assert t[i] == s[i + 1]; }
        }
      }
      FindSound(t, k);
    } else {
      FindSound(s, k);
    }
  }


  /** Round trip: inserting a new key and deleting it again restores the
      sequence and hands back the inserted entry. */
  lemma {:induction false} InsertThenDelete(s: seq<Entry>, e: Entry)
    requires Sorted(s) && Find(s, e.key) == None
    ensures DeleteKeyed(InsertKeyed(s, e).0, e.key) == (s, Some(e))
  {
    var c := LowerBound(s, e.key);
    LowerBoundSplits(s, e.key);
    FindAtLowerBound(s, e.key);
    InsertKeyedAt(s, e, c);
    var t := s[..c] + [e] + s[c..];
    assert InsertKeyed(s, e).0 == t;
    assert t[c] == e;
    assert c == 0 || t[c - 1].key < e.key;
    InsertKeyedSorted(s, e);
    DeleteKeyedAt(t, e.key, c);
    assert t[..c] + t[c + 1..] == s;
  }

  /** The successor lookup on a sorted sequence: it finds nothing exactly
      when every key is below k, and otherwise the entry it finds is the
      first one not below k and agrees with the exact lookup whenever that
      finds anything. */
  lemma {:induction false} SuccessorSpec(s: seq<Entry>, k: int)
    requires Sorted(s)
    ensures Successor(s, k).0.None? <==> forall i :: 0 <= i < |s| ==> s[i].key < k
    ensures Successor(s, k).0.Some? ==>
              Successor(s, k).0.value.key >= k && forall i :: 0 <= i < Successor(s, k).1 ==> s[i].key < k
    ensures Find(s, k).Some? ==> Successor(s, k).0 == Find(s, k)
  {
    LowerBoundSplits(s, k);
    FindAtLowerBound(s, k);
  }

  /** The successor lookup and the exact lookup differ on a missing key that
      has a larger key after it. */
  lemma SuccessorOnMiss()
    ensures var s := [Entry(2, 0)];
            Sorted(s) && Find(s, 1) == None && Successor(s, 1) == (Some(Entry(2, 0)), 0)
  {
  }

  /** Extending a prefix by one element. */
  lemma TakeSnoc(es: seq<Entry>, i: nat)
    requires i < |es|
    ensures es[..i + 1] == es[..i] + [es[i]]
  { }

  /** A batch of inserts is its prefix followed by one more insert. */
  lemma {:induction false} InsertManySnoc(s: seq<Entry>, es: seq<Entry>, e: Entry)
    ensures var (t, rs) := InsertMany(s, es);
            InsertMany(s, es + [e]) == (InsertKeyed(t, e).0, rs + [InsertKeyed(t, e).1])
    decreases |es|
  {
    if es == [] {
      assert es + [e] == [e] && [e][1..] == [];
      var t := InsertKeyed(s, e);
      assert InsertMany(t.0, []) == (t.0, []);
      assert [t.1] + [] == [t.1] && [] + [t.1] == [t.1];
    } else {
      var (t, r) := InsertKeyed(s, es[0]);
      assert (es + [e])[0] == es[0];
      assert (es + [e])[1..] == es[1..] + [e];
      InsertManySnoc(t, es[1..], e);
      var (u, rs) := InsertMany(t, es[1..]);
      assert InsertMany(s, es) == (u, [r] + rs);
      assert InsertMany(s, es + [e]) == (InsertKeyed(u, e).0, [r] + (rs + [InsertKeyed(u, e).1]));
      assert [r] + (rs + [InsertKeyed(u, e).1]) == ([r] + rs) + [InsertKeyed(u, e).1];
    }
  }

  /** A batch of deletes is its prefix followed by one more delete. */
  lemma {:induction false} DeleteManySnoc(s: seq<Entry>, es: seq<Entry>, e: Entry)
    ensures var (t, rs) := DeleteMany(s, es);
            DeleteMany(s, es + [e]) == (DeleteKeyed(t, e.key).0, rs + [DeleteKeyed(t, e.key).1])
    decreases |es|
  {
    if es == [] {
      assert es + [e] == [e] && [e][1..] == [];
      var t := DeleteKeyed(s, e.key);
      assert DeleteMany(t.0, []) == (t.0, []);
      assert [t.1] + [] == [t.1] && [] + [t.1] == [t.1];
    } else {
      var (t, r) := DeleteKeyed(s, es[0].key);
      assert (es + [e])[0] == es[0];
      assert (es + [e])[1..] == es[1..] + [e];
      DeleteManySnoc(t, es[1..], e);
      var (u, rs) := DeleteMany(t, es[1..]);
      assert DeleteMany(s, es) == (u, [r] + rs);
      assert DeleteMany(s, es + [e]) == (DeleteKeyed(u, e.key).0, [r] + (rs + [DeleteKeyed(u, e.key).1]));
      assert [r] + (rs + [DeleteKeyed(u, e.key).1]) == ([r] + rs) + [DeleteKeyed(u, e.key).1];
    }
  }
}
