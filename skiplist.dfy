/** The indexed skip list of slice/skip/skip.go: one handle holding the
    towers, the current level, the count and the two scratch buffers
    (`cache`, `posCache`) that the searches fill with their update trail
    and the mutators consume. */
module Skip {
  import opened Entries
  import opened Towers

  /** The element types the list can be created for; each fixes the
      maximum level. */
  datatype Kind = Uint8 | Uint16 | Uint32 | Uint64 | Uint | Unsupported

  /** An iterator's starting state: the empty iterator, or one that is
      before its first step and stands on a node. */
  datatype Iterator = NilIterator | Iterator(first: bool, node: int)

  class SkipList {
    var maxLevel: nat
    var level: nat
    var num: u64
    var nodes: seq<Node>
    var cache: array<int>
    var posCache: array<u64>
    /** The nodes along level 0, in rank order. */
    ghost var order: seq<nat>

    /** The towers, the count and the level, apart from the scratch buffers. */
    ghost predicate Shape()
      reads this
    {
      maxLevel < 256 && (num > 0 ==> level >= 1) &&
      Towered(nodes, order, level, maxLevel) && num as int == |order|
    }

    /** The list's invariant: its shape, a level no higher than needed
        (at most 1, or the head's link just below it is set), buffers as
        long as the head is tall, no trail above the level, and on an empty
        list a trail that stands at the head. */
    ghost predicate Valid()
      reads this, cache, posCache
    {
      Good(nodes, order, level, num, maxLevel, cache, posCache)
    }

    /** Valid() holds of the fields' values. */
    lemma GoodIsValid()
      requires Good(nodes, order, level, num, maxLevel, cache, posCache)
      ensures Valid()
    {
    }

    /** The entries in rank order. */
    ghost function Elems(): seq<Entry>
      reads this
    {
      Contents(nodes, order)
    }

    /** The scratch buffers hold the update trail for cut c on every level
        below top: the rank of the trail in posCache, its node in cache. */
    ghost predicate Cached(c: int, top: int)
      reads this, cache, posCache
    {
      forall l :: 0 <= l < top && l < cache.Length && l < posCache.Length ==>
        Trail(nodes, order, l, posCache[l], c) && cache[l] == At(order, posCache[l])
    }

    /** The level is the height of the tallest tower: none is taller, and a
        non-empty list holds one exactly that tall. */
    lemma LevelIsTallest()
      requires Valid()
      ensures forall i :: 0 <= i < |order| ==> Height(nodes, order[i]) <= level
      ensures num > 0 ==> exists i :: 0 <= i < |order| && Height(nodes, order[i]) == level
    {
      if num > 0 {
        if level > 1 {
          HeadLink(nodes, order, level - 1);
          var y :| y in order && Height(nodes, y) > level - 1;
          var i :| 0 <= i < |order| && order[i] == y;
          assert Height(nodes, order[i]) == level;
        } else {
          assert Height(nodes, order[0]) == level;
        }
      }
    }

    /** Every level up to the head's height is right, not only those below
        the current level. */
    lemma AllLinked()
      requires Shape()
      ensures forall l :: 0 <= l < maxLevel ==> Linked(nodes, order, l)
    {
      forall l | level <= l < maxLevel ensures Linked(nodes, order, l) {
        forall j | 1 <= j <= |order| ensures Ht(nodes, order, j) <= l {
          assert Height(nodes, order[j - 1]) <= level;
        }
        EmptyLevel(nodes, order, l);
      }
    }

    /** New(kind): an empty list whose maximum level the kind decides, 0 for
        an unsupported kind. */
    constructor New(kind: Kind)
      ensures Valid() && Elems() == [] && num == 0 && level == 0 && nodes[0].entry == None
      ensures maxLevel == match kind
                          case Uint8 => 8
                          case Uint16 => 16
                          case Uint32 => 32
                          case Uint64 => 64
                          case Uint => 64
                          case Unsupported => 0
      ensures fresh(cache) && fresh(posCache)
    {
      var m := match kind
               case Uint8 => 8
               case Uint16 => 16
               case Uint32 => 32
               case Uint64 => 64
               case Uint => 64
               case Unsupported => 0;
      maxLevel := m;
      level := 0;
      num := 0;
      cache := new int[m](_ => NIL);
      posCache := new u64[m](_ => 0);
      nodes := [NewNode(None, m)];
      order := [];
    }

    /** search(e): the first node whose key is not below e's (NIL if none)
        and its 1-based rank; on the way, the trail of every level is
        written to the given buffers. An empty list answers (NIL, 1) at
        once. */
    method Search(e: Entry, update: array?<int>, widths: array?<u64>) returns (n: int, pos: u64, ghost c: nat)
      requires Valid()
      requires (update == null) == (widths == null)
      requires update != null && num > 0 ==> update.Length > level && widths.Length > level
      modifies update, widths
      ensures Valid()
      ensures c <= |order| && pos == Wrap(c + 1)
      ensures num == 0 ==> n == NIL && pos == 1
      ensures IsCut(Elems(), e.key, c)
      ensures Sorted(Elems()) ==> c == LowerBound(Elems(), e.key)
      ensures n == if c < |order| then order[c] else NIL
      ensures update != null && num > 0 ==>
                forall l :: 0 <= l <= level ==> Trail(nodes, order, l, widths[l], c) && update[l] == At(order, widths[l])
      ensures update != null ==> forall l :: level < l < update.Length ==> update[l] == old(update[l])
      ensures update != null ==> forall l :: level < l < widths.Length ==> widths[l] == old(widths[l])
      ensures update != null && num == 0 ==> update[..] == old(update[..]) && widths[..] == old(widths[..])
    {
      if num == 0 {
        return NIL, 1, 0;
      }
      AllLinked();
      n, pos, c := WalkByKey(nodes, order, Elems(), e, level, update, widths);
      forall l | level <= l < maxLevel ensures posCache[l] == 0 {
        if update != null && widths == posCache {
          if l > level {
            assert widths[l] == old(widths[l]);
          } else {
            assert widths[level] == 0;
          }
        } else {
          assert posCache[l] == old(posCache[l]);
        }
      }
      if Sorted(Elems()) {
        LowerBoundUnique(Elems(), e.key, c);
      }
    }

    /** searchByPosition(position): the node at 1-based rank `position` (the
        head for 0) and the rank plus one, writing the trail of every level
        to the given buffers. An empty list, or a position past the end,
        answers (NIL, 1) and writes nothing. */
    method SearchByPosition(position: u64, update: array?<int>, widths: array?<u64>) returns (n: int, pos: u64)
      requires Valid()
      requires (update == null) == (widths == null)
      requires update != null && num > 0 ==> update.Length > level && widths.Length > level
      modifies update, widths
      ensures Valid()
      ensures num == 0 || position > num ==> n == NIL && pos == 1
      ensures num == 0 || position > num ==> update != null ==> update[..] == old(update[..]) && widths[..] == old(widths[..])
      ensures 0 < num && position <= num ==> n == At(order, position as int) && pos == Wrap(position as int + 1)
      ensures 0 < num && position <= num && update != null ==>
                forall l :: 0 <= l <= level ==> Trail(nodes, order, l, widths[l], position as int) && update[l] == At(order, widths[l])
      ensures update != null ==> forall l :: level < l < update.Length ==> update[l] == old(update[l])
      ensures update != null ==> forall l :: level < l < widths.Length ==> widths[l] == old(widths[l])
    {
      if num == 0 || position > num {
        return NIL, 1;
      }
      AllLinked();
      n, pos := WalkByPos(nodes, order, position, level, update, widths);
      forall l | level <= l < maxLevel ensures posCache[l] == 0 {
        if update != null && widths == posCache {
          if l > level {
            assert widths[l] == old(widths[l]);
          } else {
            TrailTop(nodes, order, level, widths[level], position as int);
          }
        } else {
          assert posCache[l] == old(posCache[l]);
        }
      }
    }

    /** Get(entries): for each entry, what search reads at the cut it stops
        at: the stored entry there if it has the same key, or None. On a
        sorted list this is the keyed lookup. */
    method Get(es: seq<Entry>) returns (r: seq<Option<Entry>>)
      requires Valid()
      ensures |r| == |es|
      ensures forall i :: 0 <= i < |es| ==> LookedUp(Elems(), es[i].key, r[i])
      ensures forall i :: 0 <= i < |es| && r[i].Some? ==> r[i].value in Elems() && r[i].value.key == es[i].key
      ensures Sorted(Elems()) ==> forall i :: 0 <= i < |es| ==> r[i] == Find(Elems(), es[i].key)
    {
      r := [];
      ghost var s := Elems();
      var i := 0;
      while i < |es|
        invariant 0 <= i <= |es| && |r| == i
        invariant forall j :: 0 <= j < i ==> LookedUp(s, es[j].key, r[j])
        invariant forall j :: 0 <= j < i && r[j].Some? ==> r[j].value in s && r[j].value.key == es[j].key
        invariant Sorted(s) ==> forall j :: 0 <= j < i ==> r[j] == Find(s, es[j].key)
      {
        var x := GetOne(es[i]);
        r := r + [x];
        i := i + 1;
      }
    }

    /** One lookup of Get: the node search(e) stops at, if its key is e's. */
    method GetOne(e: Entry) returns (x: Option<Entry>)
      requires Valid()
      ensures LookedUp(Elems(), e.key, x)
      ensures x.Some? ==> x.value in Elems() && x.value.key == e.key
      ensures Sorted(Elems()) ==> x == Find(Elems(), e.key)
    {
      var n, _, c := Search(e, null, null);
      if n != NIL && Compare(nodes[n].entry.value, e) == 0 {
        x := nodes[n].entry;
        assert x.value == Elems()[c];
      } else {
        x := None;
      }
      assert IsCut(Elems(), e.key, c) && x == GetAt(Elems(), c, e.key);
      LookedUpSorted(Elems(), e.key, x);
    }

    /** GetWithPosition(e) as written: the entry search(e) stops at and its
        0-based index, or (None, 0) at the end of the list. On a miss
        inside the list that is the next larger entry, not None: on a sorted
        list the result is the successor of e's key. */
    method GetWithPosition(e: Entry) returns (x: Option<Entry>, p: u64)
      requires Valid()
      ensures exists c :: IsCut(Elems(), e.key, c) &&
                (x, p as int) == (if c < |Elems()| then (Some(Elems()[c]), c) else (None, 0))
      ensures Sorted(Elems()) ==> (x, p as int) == Successor(Elems(), e.key)
    {
      var n, pos, c := Search(e, null, null);
      if n == NIL {
        x, p := None, 0;
      } else {
        x, p := nodes[n].entry, pos - 1;
        assert x == Some(Elems()[c]);
      }
      assert IsCut(Elems(), e.key, c) && (x, p as int) == (if c < |Elems()| then (Some(Elems()[c]), c) else (None, 0));
    }

    /** GetWithPosition(e) as documented: the entry with e's key and its
        0-based index, or (None, 0) when no entry has that key. */
    method GetWithPositionExact(e: Entry) returns (x: Option<Entry>, p: u64)
      requires Valid()
      ensures x.Some? ==> p as int < |Elems()| && x.value == Elems()[p] && x.value.key == e.key
      ensures x.None? ==> p == 0
      ensures Sorted(Elems()) ==> x == Find(Elems(), e.key)
    {
      var n, pos, c := Search(e, null, null);
      if n == NIL || Compare(nodes[n].entry.value, e) != 0 {
        x, p := None, 0;
      } else {
        x, p := nodes[n].entry, pos - 1;
        assert x == Some(Elems()[c]);
      }
      if Sorted(Elems()) {
        FindAtLowerBound(Elems(), e.key);
      }
    }

    /** ByPosition(i): the entry at 0-based index i, or None past the end.
        The index is shifted by one in 64-bit arithmetic, so the largest
        index reads the head's entry slot. */
    method ByPosition(i: u64) returns (x: Option<Entry>)
      requires Valid()
      ensures i < num ==> x == Some(Elems()[i])
      ensures num <= i < TWO64 - 1 ==> x == None
      ensures i == TWO64 - 1 ==> x == if num == 0 then None else nodes[0].entry
    {
      var n, _ := SearchByPosition(Wrap(i as int + 1), null, null);
      if n == NIL {
        return None;
      }
      x := nodes[n].entry;
    }

    /** ReplaceAtPosition(i, e): the entry at 0-based index i becomes e;
        past the end nothing changes. The index is shifted by one in 64-bit
        arithmetic, so the largest index writes the head's entry slot of a
        non-empty list, which no search reads. */
    method ReplaceAtPosition(i: u64, e: Entry)
      requires Valid()
      modifies this
      ensures Valid()
      ensures order == old(order) && num == old(num) && level == old(level) && maxLevel == old(maxLevel)
      ensures cache == old(cache) && posCache == old(posCache)
      ensures forall l :: SameOn(old(nodes), nodes, l)
      ensures !(i == TWO64 - 1 && num > 0) ==> nodes[0].entry == old(nodes[0].entry)
      ensures i < num ==> Elems() == old(Elems())[i := e]
      ensures num <= i < TWO64 - 1 || num == 0 ==> nodes == old(nodes)
      ensures i == TWO64 - 1 && num > 0 ==> Elems() == old(Elems()) && nodes[0].entry == Some(e)
    {
      var n, _ := SearchByPosition(Wrap(i as int + 1), null, null);
      if n == NIL {
        return;
      }
      SetNodeEntry(n, e, Wrap(i as int + 1));
    }

    /** `n.entry = e` for the node n at rank k (the head for 0): the
        entry at index k - 1 becomes e, and nothing else changes. */
    method SetNodeEntry(n: int, e: Entry, ghost k: int)
      requires Valid() && 0 <= k <= |order| && n == At(order, k)
      modifies this
      ensures Valid()
      ensures order == old(order) && num == old(num) && level == old(level) && maxLevel == old(maxLevel)
      ensures cache == old(cache) && posCache == old(posCache)
      ensures forall l :: SameOn(old(nodes), nodes, l)
      ensures k > 0 ==> Elems() == old(Elems())[k - 1 := e] && nodes[0].entry == old(nodes[0].entry)
      ensures k == 0 ==> Elems() == old(Elems()) && nodes[0].entry == Some(e)
    {
      EntryFrame(nodes, order, n, e);
      forall l | 0 <= l < level ensures Linked(SetEntry(nodes, n, e), order, l) {
        LinkedFrame(nodes, SetEntry(nodes, n, e), order, l);
      }
      ghost var s := Elems();
      ghost var nd0 := nodes;
      nodes := SetEntry(nodes, n, e);
      assert forall y :: Height(nodes, y) == Height(nd0, y) by {
        assert SameOn(nd0, nodes, 0);
      }
      assert forall l :: level <= l < maxLevel ==> Fwd(nodes, 0, l) == NIL && Wid(nodes, 0, l) == 0 by {
        forall l | level <= l < maxLevel ensures Fwd(nodes, 0, l) == NIL && Wid(nodes, 0, l) == 0 {
          assert SameOn(nd0, nodes, l);
        }
      }
      if k > 0 {
        forall j | 0 <= j < |order| ensures Elems()[j] == s[k - 1 := e][j] {
          AtInjective(nodes, order, k, j + 1);
        }
      } else {
        assert Elems() == s;
      }
    }

    /** insertNode(n, entry, pos, allowDuplicate) for the cut c that the
        preceding search found (pos = c + 1, its trail in the buffers); the
        new tower's height is drawn by generateLevel from `coins`. Without allowDuplicate,
        an entry at the cut with entry's key is overwritten and returned;
        otherwise entry is inserted at index c, the level rising to h when
        h is above it. */
    method InsertNode(n: int, entry: Entry, pos: u64, allowDuplicate: bool, coins: seq<bool>, ghost c: nat)
      returns (r: Option<Entry>)
      requires Valid() && c <= |order| && pos as int == c + 1
      requires !allowDuplicate ==> n == if c < |order| then order[c] else NIL
      requires num > 0 ==> Cached(c, level)
      requires 2 <= maxLevel && |coins| >= maxLevel && |order| + 1 < TWO64
      modifies this, cache
      ensures Valid()
      ensures maxLevel == old(maxLevel) && cache == old(cache) && posCache == old(posCache)
      ensures nodes[0].entry == old(nodes[0].entry)
      ensures !allowDuplicate && c < |old(order)| && old(Elems())[c].key == entry.key ==>
                r == Some(old(Elems())[c]) && Elems() == old(Elems())[c := entry] &&
                num == old(num) && level == old(level) && order == old(order) &&
                forall l :: SameOn(old(nodes), nodes, l)
      ensures !(!allowDuplicate && c < |old(order)| && old(Elems())[c].key == entry.key) ==>
                r == None && Elems() == old(Elems())[..c] + [entry] + old(Elems())[c..] &&
                num as int == old(num) as int + 1 && old(level) <= level &&
                level == (var h := Drawn(maxLevel, coins); if h > old(level) then h else old(level))
      ensures 1 <= level
    {
      if !allowDuplicate && n != NIL && Compare(nodes[n].entry.value, entry) == 0 {
        r := nodes[n].entry;
        SetNodeEntry(n, entry, c + 1);
        return;
      }
      r := None;
      AddTower(entry, pos, coins, c);
    }

    /** insertNode past its duplicate check: num goes up, a height is drawn,
        the levels it raises the list to start their trail at the head, and
        a tower holding entry is linked in at index c on every level. */
    method AddTower(entry: Entry, pos: u64, coins: seq<bool>, ghost c: nat)
      requires Valid() && c <= |order| && pos as int == c + 1
      requires num > 0 ==> Cached(c, level)
      requires 2 <= maxLevel && |coins| >= maxLevel && |order| + 1 < TWO64
      modifies this, cache
      ensures Valid()
      ensures maxLevel == old(maxLevel) && cache == old(cache) && posCache == old(posCache)
      ensures Elems() == old(Elems())[..c] + [entry] + old(Elems())[c..] && nodes[0].entry == old(nodes[0].entry)
      ensures num as int == old(num) as int + 1 && 1 <= level && old(level) <= level
      ensures var h := Drawn(maxLevel, coins); level == if h > old(level) then h else old(level)
    {
      AllLinked();
      assert forall l :: 0 <= l < level ==> Trail(nodes, order, l, posCache[l], c) && cache[l] == At(order, posCache[l]);
      var nd, m, lv := GrowTower(nodes, order, level, c, entry, pos, coins, cache, posCache);
      nodes, order, level, num := nd, Ins(order, c, m), lv, num + 1;
      GoodIsValid();
    }

    /** insert(e): search for e's cut, filling the buffers with its
        trail, then insertNode without duplicates. At the cut found, an
        entry with e's key is overwritten and returned, or else e goes in
        there; on a sorted list this is the keyed insert, and the list stays
        sorted. */
    method InsertOne(e: Entry, coins: seq<bool>) returns (r: Option<Entry>)
      requires Valid() && 2 <= maxLevel && |coins| >= maxLevel && |order| + 1 < TWO64
      modifies this, cache, posCache
      ensures Valid() && maxLevel == old(maxLevel) && cache == old(cache) && posCache == old(posCache)
      ensures exists c :: IsCut(old(Elems()), e.key, c) && (Elems(), r) == PutAt(old(Elems()), c, e)
      ensures 1 <= level && old(level) <= level && nodes[0].entry == old(nodes[0].entry)
      ensures r.None? ==> level == (var h := Drawn(maxLevel, coins); if h > old(level) then h else old(level))
      ensures r.Some? ==> order == old(order) && num == old(num) && level == old(level) &&
                          forall l :: SameOn(old(nodes), nodes, l)
      ensures Sorted(old(Elems())) ==> (Elems(), r) == InsertKeyed(old(Elems()), e) && Sorted(Elems())
    {
      ghost var s := Elems();
      var n, pos, c := Search(e, cache, posCache);
      r := InsertNode(n, e, pos, false, coins, c);
      assert (Elems(), r) == PutAt(s, c, e);
      if Sorted(s) {
        InsertKeyedAt(s, e, c);
        InsertKeyedSorted(s, e);
      }
    }

    /** Insert(entries): insert each entry in turn, one result slot per
        entry (the entry it overwrote, or None); coins[i] feeds the height
        draw of the i-th. On a sorted list this is the batch of keyed
        inserts. */
    method Insert(es: seq<Entry>, coins: seq<seq<bool>>) returns (r: seq<Option<Entry>>)
      requires Valid() && 2 <= maxLevel && |order| + |es| < TWO64
      requires |coins| == |es| && forall i :: 0 <= i < |es| ==> |coins[i]| >= maxLevel
      modifies this, cache, posCache
      ensures Valid() && maxLevel == old(maxLevel) && cache == old(cache) && posCache == old(posCache)
      ensures |r| == |es| && |Elems()| <= |old(Elems())| + |es|
      ensures old(level) <= level && (|es| > 0 ==> 1 <= level) && nodes[0].entry == old(nodes[0].entry)
      ensures Sorted(old(Elems())) ==> (Elems(), r) == InsertMany(old(Elems()), es) && Sorted(Elems())
    {
      ghost var s := Elems();
      r := [];
      var i := 0;
      while i < |es|
        invariant 0 <= i <= |es| && |r| == i
        invariant Valid() && maxLevel == old(maxLevel) && cache == old(cache) && posCache == old(posCache)
        invariant |Elems()| <= |s| + i
        invariant old(level) <= level && (i > 0 ==> 1 <= level) && nodes[0].entry == old(nodes[0].entry)
        invariant Sorted(s) ==> (Elems(), r) == InsertMany(s, es[..i]) && Sorted(Elems())
      {
        var x := InsertOne(es[i], coins[i]);
        InsertManySnoc(s, es[..i], es[i]);
        TakeSnoc(es, i);
        r := r + [x];
        i := i + 1;
      }
      assert es[..i] == es;
    }

    /** InsertAtPosition(p, e): insert e at index p, or at the end when p is
        past it, whatever its key: no order check and no duplicate check. */
    method InsertAtPosition(p: u64, e: Entry, coins: seq<bool>)
      requires Valid() && 2 <= maxLevel && |coins| >= maxLevel && |order| + 1 < TWO64
      modifies this, cache, posCache
      ensures Valid() && maxLevel == old(maxLevel) && cache == old(cache) && posCache == old(posCache)
      ensures var q := if p > old(num) then old(num) as int else p as int;
              Elems() == old(Elems())[..q] + [e] + old(Elems())[q..]
      ensures 1 <= level && level == (var h := Drawn(maxLevel, coins); if h > old(level) then h else old(level))
      ensures nodes[0].entry == old(nodes[0].entry)
    {
      var position := p;
      if position > num {
        position := num;
      }
      var n, pos := SearchByPosition(position, cache, posCache);
      var _ := InsertNode(n, e, pos, true, coins, position as int);
    }

    /** delete(e): search for e's cut, filling the buffers with its trail;
        if the entry there has e's key, remove it and return it. On a
        sorted list this is the keyed delete, and the list stays sorted. */
    method DeleteOne(e: Entry) returns (r: Option<Entry>)
      requires Valid()
      modifies this, cache, posCache
      ensures Valid() && maxLevel == old(maxLevel) && cache == old(cache) && posCache == old(posCache)
      ensures exists c :: IsCut(old(Elems()), e.key, c) && (Elems(), r) == RemoveAt(old(Elems()), c, e.key)
      ensures r.None? ==> nodes == old(nodes) && order == old(order) && num == old(num) && level == old(level)
      ensures r.Some? ==> 1 <= level <= old(level) && |Elems()| == |old(Elems())| - 1
      ensures nodes[0].entry == old(nodes[0].entry)
      ensures Sorted(old(Elems())) ==> (Elems(), r) == DeleteKeyed(old(Elems()), e.key) && Sorted(Elems())
    {
      ghost var s := Elems();
      var n, _, c := Search(e, cache, posCache);
      if n == NIL || Compare(nodes[n].entry.value, e) != 0 {
        r := None;
      } else {
        r := nodes[n].entry;
        assert r == Some(s[c]);
        Unlink(n, c);
      }
      assert (Elems(), r) == RemoveAt(s, c, e.key);
      if Sorted(s) {
        DeleteKeyedAt(s, e.key, c);
        DeleteKeyedSorted(s, e.key);
      }
    }

    /** delete past its match check: num goes down, the tower n at index
        c is unlinked on the levels up to the current one (its trail in the
        buffers) and the level shrinks while the head's link below it is
        NIL. */
    method Unlink(n: int, ghost c: nat)
      requires Valid() && c < |order| && n == order[c]
      requires forall l :: 0 <= l <= level ==> Trail(nodes, order, l, posCache[l], c) && cache[l] == At(order, posCache[l])
      modifies this
      ensures Valid() && maxLevel == old(maxLevel) && cache == old(cache) && posCache == old(posCache)
      ensures Elems() == old(Elems())[..c] + old(Elems())[c + 1..]
      ensures 1 <= level <= old(level) && nodes[0].entry == old(nodes[0].entry)
    {
      AllLinked();
      num := num - 1;
      var nd, lv := RemoveTower(nodes, order, c, level, n, cache, posCache);
      nodes, order, level := nd, Del(order, c), lv;
      assert Shape();
      forall l | 0 <= l < level && num == 0 ensures cache[l] == 0 && posCache[l] == 0 {
        assert c == 0;
      }
    }

    /** Delete(entries): delete the key of each entry in turn, one result
        slot per entry (the entry removed, or None). On a sorted list this
        is the batch of keyed deletes. */
    method Delete(es: seq<Entry>) returns (r: seq<Option<Entry>>)
      requires Valid()
      modifies this, cache, posCache
      ensures Valid() && maxLevel == old(maxLevel) && cache == old(cache) && posCache == old(posCache)
      ensures |r| == |es| && |Elems()| <= |old(Elems())|
      ensures level <= old(level) && (old(level) >= 1 ==> 1 <= level) && nodes[0].entry == old(nodes[0].entry)
      ensures Sorted(old(Elems())) ==> (Elems(), r) == DeleteMany(old(Elems()), es) && Sorted(Elems())
    {
      ghost var s, lv := Elems(), level;
      r := [];
      var i := 0;
      while i < |es|
        invariant 0 <= i <= |es| && |r| == i
        invariant Valid() && maxLevel == old(maxLevel) && cache == old(cache) && posCache == old(posCache)
        invariant |Elems()| <= |s|
        invariant level <= lv && (lv >= 1 ==> 1 <= level) && nodes[0].entry == old(nodes[0].entry)
        invariant Sorted(s) ==> (Elems(), r) == DeleteMany(s, es[..i]) && Sorted(Elems())
      {
        var x := DeleteOne(es[i]);
        DeleteManySnoc(s, es[..i], es[i]);
        TakeSnoc(es, i);
        r := r + [x];
        i := i + 1;
      }
      assert es[..i] == es;
    }

    /** SplitAt(index): the list is cut after 0-based index `index`. The
        index is shifted by one in 64-bit arithmetic; when the shifted cut
        is not inside the list, nothing changes and there is no right
        list. Otherwise this list keeps the entries before the cut and a
        new list takes the rest, both valid. The largest index shifts to
        cut 0, which moves every entry to the right list. */
    method SplitAt(index: u64) returns (left: SkipList, right: SkipList?)
      requires Valid()
      modifies this, cache, posCache
      ensures left == this && Valid() && maxLevel == old(maxLevel) && cache == old(cache) && posCache == old(posCache)
      ensures Wrap(index as int + 1) >= old(num) ==>
                right == null && Elems() == old(Elems()) && nodes == old(nodes) && order == old(order) &&
                num == old(num) && level == old(level) &&
                cache[..] == old(cache[..]) && posCache[..] == old(posCache[..])
      ensures var c := Wrap(index as int + 1);
              c < old(num) ==>
                right != null && fresh(right) && fresh(right.cache) && fresh(right.posCache) &&
                right.Valid() && right.maxLevel == maxLevel &&
                Elems() == old(Elems())[..c] && right.Elems() == old(Elems())[c..] &&
                num == c && right.num as int == old(num) as int - c as int &&
                level >= 1 && right.level >= 1 &&
                nodes[0].entry == old(nodes[0].entry) && right.nodes[0].entry == None
    {
      var c := Wrap(index as int + 1);
      if c >= num {
        return this, null;
      }
      left := this;
      right := SplitOff(c);
    }

    /** splitAt(index) for a cut inside the list: search by position fills
        the buffers with the cut's trail, the towers are cut on every level
        up to the current one, this list keeps the first `index` entries and
        a new list with its own head takes the rest; then both lists reset
        their level. */
    method SplitOff(index: u64) returns (right: SkipList)
      requires Valid() && index < num
      modifies this, cache, posCache
      ensures Valid() && maxLevel == old(maxLevel) && cache == old(cache) && posCache == old(posCache)
      ensures fresh(right) && fresh(right.cache) && fresh(right.posCache)
      ensures right.Valid() && right.maxLevel == maxLevel
      ensures Elems() == old(Elems())[..index] && right.Elems() == old(Elems())[index..]
      ensures num == index && right.num as int == old(num) as int - index as int
      ensures level >= 1 && right.level >= 1
      ensures nodes[0].entry == old(nodes[0].entry) && right.nodes[0].entry == None
    {
      AllLinked();
      ghost var l0 := level;
      var _, _ := SearchByPosition(index, cache, posCache);
      var nd, rd := SplitTowers(nodes, order, index, level, cache, posCache);
      right := new SkipList.Tail(maxLevel, level, num - index, rd, order[index..]);
      num := num - right.num;
      nodes, order := nd, order[..index];
      ResetMaxLevel();
      right.ResetMaxLevel();
      forall l | level <= l < maxLevel ensures posCache[l] == 0 {
        if l <= l0 {
          assert Fwd(nodes, 0, l) == NIL;
        }
      }
    }

    /** The right list of splitAt: the given towers, level and count, and
        scratch buffers of its own (NIL nodes, zero ranks). */
    constructor Tail(maxLevel: nat, level: nat, num: u64, nodes: seq<Node>, ghost order: seq<nat>)
      requires maxLevel < 256 && Towered(nodes, order, level, maxLevel) && num as int == |order|
      ensures this.maxLevel == maxLevel && this.level == level && this.num == num
      ensures this.nodes == nodes && this.order == order
      ensures fresh(cache) && fresh(posCache) && cache.Length == maxLevel && posCache.Length == maxLevel
      ensures forall l :: 0 <= l < maxLevel ==> posCache[l] == 0
    {
      this.maxLevel := maxLevel;
      this.level := level;
      this.num := num;
      this.nodes := nodes;
      this.order := order;
      cache := new int[maxLevel](_ => NIL);
      posCache := new u64[maxLevel](_ => 0);
    }

    /** resetMaxLevel(): a level of 0 becomes 1; otherwise the level goes
        down while it is above 1 and the head's link just below it is NIL.
        The towers stay as they are, and stay right at the new level. */
    method ResetMaxLevel()
      requires Towered(nodes, order, level, maxLevel)
      modifies this
      ensures nodes == old(nodes) && order == old(order) && num == old(num) && maxLevel == old(maxLevel)
      ensures cache == old(cache) && posCache == old(posCache)
      ensures old(level) == 0 ==> level == 1
      ensures old(level) >= 1 || maxLevel >= 2 ==> Towered(nodes, order, level, maxLevel)
      ensures old(level) >= 1 ==> 1 <= level <= old(level) && (level == 1 || Fwd(nodes, 0, level - 1) != NIL)
      ensures forall l :: level <= l < old(level) ==> Fwd(nodes, 0, l) == NIL
    {
      if level < 1 {
        level := 1;
        if maxLevel >= 2 {
          EmptyLevel(nodes, order, 0);
        }
        return;
      }
      while Fwd(nodes, 0, level - 1) == NIL && level > 1
        invariant 1 <= level <= old(level)
        invariant nodes == old(nodes) && order == old(order) && num == old(num) && maxLevel == old(maxLevel)
        invariant cache == old(cache) && posCache == old(posCache)
        invariant Towered(nodes, order, level, maxLevel)
        invariant forall l :: level <= l < old(level) ==> Fwd(nodes, 0, l) == NIL
      {
        LowerLevel(nodes, order, level, maxLevel);
        level := level - 1;
      }
    }

    /** Len(): the number of entries. */
    method Len() returns (r: u64)
      requires Valid()
      ensures r as int == |Elems()|
    {
      r := num;
    }

    /** Iter(e): an iterator standing before the first entry search(e)
        stops at, or the empty iterator when it stops at the end. On a
        sorted list that is the first entry whose key is not below e's. */
    method Iter(e: Entry) returns (it: Iterator)
      requires Valid()
      ensures exists c :: IsCut(Elems(), e.key, c) && it == StartAt(c)
      ensures Sorted(Elems()) ==> it == StartAt(LowerBound(Elems(), e.key))
    {
      var n, _, c := Search(e, null, null);
      if n == NIL {
        it := NilIterator;
      } else {
        it := Iterator(true, n);
      }
      assert it == StartAt(c);
    }

    /** The iterator that starts before the entry at index c, or the empty
        one when c is the end. */
    ghost function StartAt(c: int): Iterator
      reads this
    {
      if 0 <= c < |order| then Iterator(true, order[c]) else NilIterator
    }
  }

  /** The list's invariant over the values of its fields; see Valid. */
  ghost predicate Good(nd: seq<Node>, ord: seq<nat>, level: nat, num: u64, maxLevel: nat,
                       cache: array<int>, posCache: array<u64>)
    reads cache, posCache
  {
    maxLevel < 256 && (num > 0 ==> level >= 1) &&
    Towered(nd, ord, level, maxLevel) && num as int == |ord| &&
    (level <= 1 || Fwd(nd, 0, level - 1) != NIL) &&
    cache.Length == maxLevel && posCache.Length == maxLevel &&
    (forall l :: level <= l < maxLevel ==> posCache[l] == 0) &&
    (num == 0 ==> forall l :: 0 <= l < level ==> cache[l] == 0 && posCache[l] == 0)
  }

  /** The towers of a list at the given level: the head is maxLevel tall,
      no listed tower is above the level, every level below it is right,
      and the head's links from the level up are NIL. */
  ghost predicate Towered(nd: seq<Node>, ord: seq<nat>, level: nat, maxLevel: nat)
  {
    (level < maxLevel || level == 0 == maxLevel) &&
    Arena(nd, ord) && Height(nd, 0) == maxLevel &&
    (forall i :: 0 <= i < |ord| ==> Height(nd, ord[i]) <= level) &&
    (forall l :: 0 <= l < level ==> Linked(nd, ord, l)) &&
    (forall l :: level <= l < maxLevel ==> Fwd(nd, 0, l) == NIL && Wid(nd, 0, l) == 0)
  }

  /** A level whose head link is NIL can be dropped: the list is also
      valid one level lower. */
  lemma LowerLevel(nd: seq<Node>, ord: seq<nat>, level: nat, maxLevel: nat)
    requires Towered(nd, ord, level, maxLevel) && level > 1 && Fwd(nd, 0, level - 1) == NIL
    ensures Towered(nd, ord, level - 1, maxLevel)
  {
    HeadNil(nd, ord, level - 1);
    forall i | 0 <= i < |ord| ensures Height(nd, ord[i]) <= level - 1 {
      assert Ht(nd, ord, i + 1) <= level - 1;
    }
  }

  /** The state of search(e)'s walk after i of the levels from `level`
      down have been walked: the walk stands at rank k, past keys below
      `key` only; b is the barrier it cannot pass, a tower whose key is not
      below `key` (or the end); towers between k and b are at most as tall
      as the last level walked; and tr holds, for every level walked, its
      trail so far. */
  ghost predicate KeyWalk(nd: seq<Node>, ord: seq<nat>, s: seq<Entry>, key: int, level: int,
                          i: int, k: int, b: int, tr: seq<int>)
  {
    0 <= i <= level + 1 && |tr| == level + 1 && |s| == |ord| &&
    0 <= k < b <= |ord| + 1 &&
    (k == 0 || s[k - 1].key < key) &&
    Ht(nd, ord, k) > level - i && (i > 0 ==> Ht(nd, ord, k) > level - i + 1) &&
    (b <= |ord| ==> s[b - 1].key >= key && Ht(nd, ord, b) > level - i) &&
    (forall j :: k < j < b ==> Ht(nd, ord, j) <= level - i + 1) &&
    (forall l :: level - i < l <= level ==> TrailTo(nd, ord, l, tr[l], k, b)) &&
    (i == 0 ==> k == 0) && (i > 0 ==> tr[level] == 0)
  }

  /** One level walked: the state moves on to the rank k where the level's
      walk stopped, with the barrier moved to the next tower on that level
      when there is one. */
  lemma KeyWalkStep(nd: seq<Node>, ord: seq<nat>, s: seq<Entry>, key: int, level: int,
                    i: int, k0: int, b0: int, tr: seq<int>, k: int, w: nat, b: int, tr': seq<int>)
    requires KeyWalk(nd, ord, s, key, level, i, k0, b0, tr) && i <= level
    requires k0 <= k < b0 && (k == 0 || s[k - 1].key < key) && Ht(nd, ord, k) > level - i
    requires i == 0 ==> k == k0
    requires w != 0 ==> k + w <= b0 && k + w <= |ord| && s[k + w - 1].key >= key && Ht(nd, ord, k + w) > level - i
    requires b == if w != 0 then k + w else b0
    requires forall j :: k < j < b ==> Ht(nd, ord, j) <= level - i
    requires tr' == tr[level - i := k]
    ensures KeyWalk(nd, ord, s, key, level, i + 1, k, b, tr')
  {
    forall l | level - i - 1 < l <= level ensures TrailTo(nd, ord, l, tr'[l], k, b) {
      if l > level - i {
        TrailToNarrow(nd, ord, l, tr[l], k0, b0, k, b);
      }
    }
  }

  /** The walk of search(e) down the levels of a non-empty list, from
      `level` to 0: on each level it follows the links while the next key
      is below e's, then records where it stopped and that node's rank. The
      walk ends at the cut for e's key, sorted or not, and what it recorded
      is the update trail for that cut. */
  method WalkByKey(nd: seq<Node>, ghost ord: seq<nat>, ghost s: seq<Entry>, e: Entry, level: nat,
                   update: array?<int>, widths: array?<u64>)
    returns (n: int, pos: u64, ghost c: nat)
    requires Placed(nd, ord) && |ord| < TWO64 && s == Contents(nd, ord)
    requires forall l :: 0 <= l <= level ==> Linked(nd, ord, l)
    requires Height(nd, 0) > level && Fwd(nd, 0, level) == NIL
    requires forall i :: 0 <= i < |ord| ==> Height(nd, ord[i]) <= level
    requires (update == null) == (widths == null)
    requires update != null ==> update.Length > level && widths.Length > level
    modifies update, widths
    ensures c <= |ord| && pos == Wrap(c + 1) && IsCut(s, e.key, c)
    ensures n == if c < |ord| then ord[c] else NIL
    ensures update != null ==>
              forall l :: 0 <= l <= level ==> Trail(nd, ord, l, widths[l], c) && update[l] == At(ord, widths[l])
    ensures update != null ==> widths[level] == 0
    ensures update != null ==> forall l :: level < l < update.Length ==> update[l] == old(update[l])
    ensures update != null ==> forall l :: level < l < widths.Length ==> widths[l] == old(widths[l])
  {
    pos := 0;
    var x := 0;
    ghost var k := 0;
    ghost var b := |ord| + 1;
    ghost var tr: seq<int> := seq(level + 1, _ => 0);
    var i := 0;
    assert forall j :: 0 < j < b ==> Ht(nd, ord, j) <= level;
    while i <= level
      invariant KeyWalk(nd, ord, s, e.key, level, i, k, b, tr)
      invariant pos as int == k && x == At(ord, k)
      invariant update != null ==>
                  forall l :: level - i < l <= level ==> widths[l] == tr[l] && update[l] == At(ord, tr[l])
      invariant update != null ==> forall l :: level < l < update.Length ==> update[l] == old(update[l])
      invariant update != null ==> forall l :: level < l < widths.Length ==> widths[l] == old(widths[l])
    {
      x, pos, k, b, tr := WalkLevel(nd, ord, s, e, level, i, x, pos, k, b, tr, update, widths);
      i := i + 1;
    }
    KeyWalkDone(nd, ord, s, e.key, level, k, b, tr);
    c := k;
    n := Fwd(nd, x, 0);
    pos := Wrap(pos + 1);
  }

  /** A walk past every level stands at the cut for the key, right before
      the next rank, and has recorded every level's trail for that cut. */
  lemma KeyWalkDone(nd: seq<Node>, ord: seq<nat>, s: seq<Entry>, key: int, level: nat, k: int, b: int, tr: seq<int>)
    requires Placed(nd, ord) && Linked(nd, ord, 0)
    requires KeyWalk(nd, ord, s, key, level, level + 1, k, b, tr)
    ensures 0 <= k <= |ord| && IsCut(s, key, k) && tr[level] == 0
    ensures Fwd(nd, At(ord, k), 0) == if k < |ord| then ord[k] else NIL
    ensures forall l :: 0 <= l <= level ==> Trail(nd, ord, l, tr[l], k)
  {
    WalkEnd(nd, ord, k, b);
    forall l | 0 <= l <= level ensures Trail(nd, ord, l, tr[l], k) {
      TrailToDone(nd, ord, l, tr[l], k, b);
    }
  }

  /** Level level - i of search(e)'s walk: advance along the level, then
      record where the walk stopped. */
  method WalkLevel(nd: seq<Node>, ghost ord: seq<nat>, ghost s: seq<Entry>, e: Entry, level: nat, i: nat,
                   x0: int, pos0: u64, ghost k0: int, ghost b0: int, ghost tr0: seq<int>,
                   update: array?<int>, widths: array?<u64>)
    returns (x: int, pos: u64, ghost k: int, ghost b: int, ghost tr: seq<int>)
    requires Placed(nd, ord) && |ord| < TWO64 && s == Contents(nd, ord)
    requires i <= level && Linked(nd, ord, level - i) && (i == 0 ==> Fwd(nd, 0, level) == NIL)
    requires KeyWalk(nd, ord, s, e.key, level, i, k0, b0, tr0) && pos0 as int == k0 && x0 == At(ord, k0)
    requires update != null ==> widths != null && update.Length > level && widths.Length > level
    requires update != null ==>
               forall l :: level - i < l <= level ==> widths[l] == tr0[l] && update[l] == At(ord, tr0[l])
    modifies update, widths
    ensures KeyWalk(nd, ord, s, e.key, level, i + 1, k, b, tr) && pos as int == k && x == At(ord, k)
    ensures update != null ==>
              forall l :: level - i - 1 < l <= level ==> widths[l] == tr[l] && update[l] == At(ord, tr[l])
    ensures update != null ==> forall l :: 0 <= l < update.Length && l != level - i ==> update[l] == old(update[l])
    ensures update != null ==> forall l :: 0 <= l < widths.Length && l != level - i ==> widths[l] == old(widths[l])
  {
    x, pos, k, b, tr := StepByKey(nd, ord, s, e, level, i, x0, pos0, k0, b0, tr0);
    RecordLevel(update, widths, ord, level, i, tr0, x, pos, k);
  }

  /** The walk along level level - i itself, before anything is recorded. */
  method StepByKey(nd: seq<Node>, ghost ord: seq<nat>, ghost s: seq<Entry>, e: Entry, level: nat, i: nat,
                   x0: int, pos0: u64, ghost k0: int, ghost b0: int, ghost tr0: seq<int>)
    returns (x: int, pos: u64, ghost k: int, ghost b: int, ghost tr: seq<int>)
    requires Placed(nd, ord) && |ord| < TWO64 && s == Contents(nd, ord)
    requires i <= level && Linked(nd, ord, level - i) && (i == 0 ==> Fwd(nd, 0, level) == NIL)
    requires KeyWalk(nd, ord, s, e.key, level, i, k0, b0, tr0) && pos0 as int == k0 && x0 == At(ord, k0)
    ensures KeyWalk(nd, ord, s, e.key, level, i + 1, k, b, tr) && pos as int == k && x == At(ord, k)
    ensures tr == tr0[level - i := k]
  {
    var o := level - i;
    x, pos, k := AdvanceByKey(nd, ord, s, e, o, x0, pos0, k0, b0);
    var w := Wid(nd, x, o);
    b := if w != 0 then k + w else b0;
    tr := tr0[o := k];
    KeyWalkStep(nd, ord, s, e.key, level, i, k0, b0, tr0, k, w, b, tr);
  }

  /** Writes the trail of level level - i into the buffers: the node in
      update, its rank in widths. */
  method RecordLevel(update: array?<int>, widths: array?<u64>, ghost ord: seq<nat>, level: nat, i: nat,
                     ghost tr: seq<int>, x: int, pos: u64, ghost k: int)
    requires i <= level && |tr| == level + 1 && pos as int == k && x == At(ord, k)
    requires update != null ==> widths != null && update.Length > level && widths.Length > level
    requires update != null ==>
               forall l :: level - i < l <= level ==> widths[l] == tr[l] && update[l] == At(ord, tr[l])
    modifies update, widths
    ensures update != null ==>
              forall l :: level - i - 1 < l <= level ==>
                widths[l] == tr[level - i := k][l] && update[l] == At(ord, tr[level - i := k][l])
    ensures update != null ==> forall l :: 0 <= l < update.Length && l != level - i ==> update[l] == old(update[l])
    ensures update != null ==> forall l :: 0 <= l < widths.Length && l != level - i ==> widths[l] == old(widths[l])
  {
    if update != null {
      update[level - i] := x;
      widths[level - i] := pos;
    }
  }

  /** One level of the search by key: from rank k0 on level o, follow the
      links while the next key is below e's. The walk never reaches the
      barrier b, a tower taller than o whose key is not below e's; where it
      stops, the towers up to the next one on level o are no taller than o. */
  method AdvanceByKey(nd: seq<Node>, ghost ord: seq<nat>, ghost s: seq<Entry>, e: Entry, o: int, x0: int, pos0: u64, ghost k0: nat, ghost b: int)
    returns (x: int, pos: u64, ghost k: nat)
    requires Placed(nd, ord) && |ord| < TWO64 && 0 <= o && Linked(nd, ord, o) && s == Contents(nd, ord)
    requires k0 < b <= |ord| + 1 && pos0 as int == k0 && x0 == At(ord, k0) && Ht(nd, ord, k0) > o
    requires k0 == 0 || s[k0 - 1].key < e.key
    requires b <= |ord| ==> s[b - 1].key >= e.key && Ht(nd, ord, b) > o
    ensures k0 <= k < b && pos as int == k && x == At(ord, k) && Ht(nd, ord, k) > o
    ensures Fwd(nd, x0, o) == NIL ==> k == k0
    ensures k == 0 || s[k - 1].key < e.key
    ensures LinkOK(nd, ord, k, o)
    ensures Wid(nd, x, o) != 0 ==> k + Wid(nd, x, o) <= b && s[k + Wid(nd, x, o) - 1].key >= e.key
    ensures forall j :: k < j < (if Wid(nd, x, o) == 0 then b else k + Wid(nd, x, o)) ==> Ht(nd, ord, j) <= o
  {
    x, pos, k := x0, pos0, k0;
    assert LinkOK(nd, ord, k, o);
    while Fwd(nd, x, o) != NIL && Compare(EntryOf(nd, Fwd(nd, x, o)), e) < 0
      invariant Advancing(nd, ord, s, e.key, o, k0, k, b) && pos as int == k && x == At(ord, k)
      decreases |ord| - k
    {
      x, pos, k := AdvanceOne(nd, ord, s, e, o, k0, b, x, pos, k);
    }
    AdvanceExit(nd, ord, s, e.key, o, k0, k, b);
  }

  /** One turn of search(e)'s inner loop: follow the link on level o to
      a key below e's, adding its width to the position. */
  method AdvanceOne(nd: seq<Node>, ghost ord: seq<nat>, ghost s: seq<Entry>, e: Entry, o: int, ghost k0: nat, ghost b: int,
                    x0: int, pos0: u64, ghost k: nat)
    returns (x: int, pos: u64, ghost k': nat)
    requires Placed(nd, ord) && |ord| < TWO64 && s == Contents(nd, ord) && 0 <= o && Linked(nd, ord, o)
    requires Advancing(nd, ord, s, e.key, o, k0, k, b) && pos0 as int == k && x0 == At(ord, k)
    requires b <= |ord| ==> s[b - 1].key >= e.key && Ht(nd, ord, b) > o
    requires Fwd(nd, x0, o) != NIL && Compare(EntryOf(nd, Fwd(nd, x0, o)), e) < 0
    ensures k < k' && Advancing(nd, ord, s, e.key, o, k0, k', b) && pos as int == k' && x == At(ord, k')
  {
    var w := Wid(nd, x0, o);
    AdvanceStep(nd, ord, s, e.key, o, k0, k, b);
    pos := pos0 + w;
    x := Fwd(nd, x0, o);
    k' := k + w;
  }

  /** Where search(e)'s walk on level o stops: the next key on the level,
      if any, is not below e's and comes no later than the barrier. */
  lemma AdvanceExit(nd: seq<Node>, ord: seq<nat>, s: seq<Entry>, key: int, o: int, k0: nat, k: nat, b: int)
    requires Placed(nd, ord) && s == Contents(nd, ord) && 0 <= o
    requires Advancing(nd, ord, s, key, o, k0, k, b) && LinkOK(nd, ord, k0, o)
    requires b <= |ord| ==> s[b - 1].key >= key && Ht(nd, ord, b) > o
    requires Fwd(nd, At(ord, k), o) != NIL ==> EntryOf(nd, Fwd(nd, At(ord, k), o)).key >= key
    ensures Fwd(nd, At(ord, k0), o) == NIL ==> k == k0
    ensures Wid(nd, At(ord, k), o) != 0 ==>
              k + Wid(nd, At(ord, k), o) <= b && s[k + Wid(nd, At(ord, k), o) - 1].key >= key
    ensures forall j :: k < j < (if Wid(nd, At(ord, k), o) == 0 then b else k + Wid(nd, At(ord, k), o)) ==>
              Ht(nd, ord, j) <= o
  {
  }

  /** One move of search(e)'s walk on level o: a link to a key below e's
      key leads to a rank still before the barrier b. */
  lemma AdvanceStep(nd: seq<Node>, ord: seq<nat>, s: seq<Entry>, key: int, o: int, k0: nat, k: nat, b: int)
    requires Placed(nd, ord) && s == Contents(nd, ord) && 0 <= o && Linked(nd, ord, o)
    requires Advancing(nd, ord, s, key, o, k0, k, b)
    requires b <= |ord| ==> s[b - 1].key >= key && Ht(nd, ord, b) > o
    requires Fwd(nd, At(ord, k), o) != NIL && EntryOf(nd, Fwd(nd, At(ord, k), o)).key < key
    ensures var w := Wid(nd, At(ord, k), o);
            w > 0 && Fwd(nd, At(ord, k), o) == At(ord, k + w) && Advancing(nd, ord, s, key, o, k0, k + w, b)
  {
  }

  /** The invariant of search(e)'s walk on level o, started at rank k0
      before the barrier b: it stands at rank k of a tower taller than o,
      past keys below `key` only, and that tower's link there is right. */
  ghost predicate Advancing(nd: seq<Node>, ord: seq<nat>, s: seq<Entry>, key: int, o: int, k0: int, k: int, b: int)
  {
    0 <= k0 <= k < b <= |s| + 1 && (k == 0 || s[k - 1].key < key) &&
    Ht(nd, ord, k) > o && LinkOK(nd, ord, k, o)
  }

  /** The state of searchByPosition(p)'s walk after i of the levels from
      `level` down have been walked: it stands at rank k, not past p, on a
      tower taller than the next level to walk, and has recorded for every
      level walked its trail for cut p. */
  ghost predicate PosWalk(nd: seq<Node>, ord: seq<nat>, p: int, level: int, i: int, k: int, tr: seq<int>)
  {
    0 <= i <= level + 1 && |tr| == level + 1 &&
    0 <= k <= p <= |ord| && (k == 0 || Ht(nd, ord, k) > level - i) &&
    (i > 0 ==> tr[level - i + 1] == k && Trail(nd, ord, level - i + 1, k, p)) &&
    (forall l :: level - i < l <= level ==> Trail(nd, ord, l, tr[l], p))
  }

  /** The walk of searchByPosition(p) down the levels of a non-empty list
      holding at least p entries: on each level it follows the links while
      they do not pass rank p, then records where it stopped. It ends on
      rank p itself, and what it recorded is the update trail for cut p. */
  method WalkByPos(nd: seq<Node>, ghost ord: seq<nat>, p: u64, level: nat, update: array?<int>, widths: array?<u64>)
    returns (n: int, pos: u64)
    requires Placed(nd, ord) && |ord| < TWO64 && p as int <= |ord|
    requires forall l :: 0 <= l <= level ==> Linked(nd, ord, l)
    requires Height(nd, 0) > level
    requires (update == null) == (widths == null)
    requires update != null ==> update.Length > level && widths.Length > level
    modifies update, widths
    ensures n == At(ord, p as int) && pos == Wrap(p as int + 1)
    ensures update != null ==>
              forall l :: 0 <= l <= level ==> Trail(nd, ord, l, widths[l], p as int) && update[l] == At(ord, widths[l])
    ensures update != null ==> forall l :: level < l < update.Length ==> update[l] == old(update[l])
    ensures update != null ==> forall l :: level < l < widths.Length ==> widths[l] == old(widths[l])
  {
    pos := 0;
    n := 0;
    ghost var k := 0;
    ghost var tr: seq<int> := seq(level + 1, _ => 0);
    var i := 0;
    while i <= level
      invariant PosWalk(nd, ord, p as int, level, i, k, tr)
      invariant pos as int == k && n == At(ord, k)
      invariant update != null ==>
                  forall l :: level - i < l <= level ==> widths[l] == tr[l] && update[l] == At(ord, tr[l])
      invariant update != null ==> forall l :: level < l < update.Length ==> update[l] == old(update[l])
      invariant update != null ==> forall l :: level < l < widths.Length ==> widths[l] == old(widths[l])
    {
      ghost var tr0 := tr;
      n, pos, k := AdvanceByPos(nd, ord, p, level - i, n, pos, k);
      tr := tr[level - i := k];
      RecordLevel(update, widths, ord, level, i, tr0, n, pos, k);
      i := i + 1;
    }
    TrailBottom(nd, ord, k, p as int);
    pos := Wrap(pos as int + 1);
  }

  /** One level of the search by position: from rank k0 on level o, follow
      the links while they end at or before rank p. Where it stops, no tower
      taller than o stands between it and p. */
  method AdvanceByPos(nd: seq<Node>, ghost ord: seq<nat>, p: u64, o: int, x0: int, pos0: u64, ghost k0: nat)
    returns (x: int, pos: u64, ghost k: nat)
    requires Placed(nd, ord) && |ord| < TWO64 && 0 <= o && Linked(nd, ord, o)
    requires k0 <= p as int <= |ord| && pos0 as int == k0 && x0 == At(ord, k0) && Ht(nd, ord, k0) > o
    ensures k0 <= k <= p as int && pos as int == k && x == At(ord, k) && Ht(nd, ord, k) > o
    ensures Trail(nd, ord, o, k, p as int)
  {
    x, pos, k := x0, pos0, k0;
    assert LinkOK(nd, ord, k, o);
    while Wid(nd, x, o) != 0 && pos + Wid(nd, x, o) <= p
      invariant k0 <= k <= p as int && pos as int == k && x == At(ord, k)
      invariant Ht(nd, ord, k) > o && LinkOK(nd, ord, k, o)
      decreases |ord| - k
    {
      var w := Wid(nd, x, o);
      pos := pos + w;
      x := Fwd(nd, x, o);
      k := k + w;
      assert LinkOK(nd, ord, k, o);
    }
  }

  // ---------------------------------------------------------------------
  // insertNode's two passes over the levels, on the arena as a value

  /** Level l of insertNode's splice: the new tower m takes the trail's
      link, the trail links to m, and the widths are split at the new rank
      c + 1 (pc is the trail's rank from posCache, pos = c + 1). */
  method SpliceOne(nd: seq<Node>, ghost ord: seq<nat>, ghost c: nat, m: nat, l: nat, x: int, pc: u64, pos: u64, ghost k: nat)
    returns (nd': seq<Node>)
    requires Arena(nd, ord) && |ord| < TWO64 && 1 <= m < |nd| && m !in ord
    requires Linked(nd, ord, l) && Trail(nd, ord, l, k, c) && Height(nd, 0) > l && Height(nd, m) > l
    requires x == At(ord, k) && pc as int == k && pos as int == c + 1
    ensures Linked(nd', Ins(ord, c, m), l)
    ensures |nd'| == |nd| && forall y :: Height(nd', y) == Height(nd, y)
    ensures forall y :: 0 <= y < |nd| ==> nd'[y].entry == nd[y].entry && |nd'[y].widths| == |nd[y].widths|
    ensures forall l' :: l' != l ==> SameOn(nd, nd', l')
  {
    TrailLink(nd, ord, l, k, c);
    nd' := SpliceWrites(nd, m, l, x, pc, pos);
    SpliceLevel(nd, nd', ord, c, m, l, k);
  }

  /** The four writes of one splice level, in insertNode's order: m takes
      x's link, x links to m, m's width is the rest of x's old width past
      the new rank (0 at the level's end), and x's width becomes the
      distance from its rank pc to the new rank pos. */
  method SpliceWrites(nd: seq<Node>, m: nat, l: nat, x: int, pc: u64, pos: u64)
    returns (nd': seq<Node>)
    requires 0 <= x < |nd| && m < |nd| && x != m
    requires l < |nd[x].forward| == |nd[x].widths| && l < |nd[m].forward| == |nd[m].widths|
    ensures SameExcept(nd, nd', l, x, m)
    ensures Fwd(nd', m, l) == Fwd(nd, x, l) && Fwd(nd', x, l) == m
    ensures Wid(nd', m, l) == if Wid(nd, x, l) == 0 then 0 else Wrap(pc as int + Wid(nd, x, l) as int + 1 - pos as int)
    ensures Wid(nd', x, l) == Wrap(pos as int - pc as int)
    ensures |nd'| == |nd| && forall y :: Height(nd', y) == Height(nd, y)
    ensures forall y :: 0 <= y < |nd| ==> nd'[y].entry == nd[y].entry && |nd'[y].widths| == |nd[y].widths|
    ensures forall l' :: l' != l ==> SameOn(nd, nd', l')
  {
    nd' := SetFwd(nd, m, l, Fwd(nd, x, l));
    nd' := SetFwd(nd', x, l, m);
    var formerWidth := Wid(nd', x, l);
    if formerWidth == 0 {
      nd' := SetWid(nd', m, l, 0);
    } else {
      nd' := SetWid(nd', m, l, Wrap(pc as int + formerWidth as int + 1 - pos as int));
    }
    if Fwd(nd', x, l) != NIL {
      nd' := SetWid(nd', x, l, Wrap(pos as int - pc as int));
    }
  }

  /** Level l of insertNode's second pass, at or above the new tower's top:
      a trail link that is not NIL now passes over one more rank. */
  method BumpOne(nd: seq<Node>, ghost ord: seq<nat>, ghost c: nat, m: nat, l: nat, x: int, ghost k: nat)
    returns (nd': seq<Node>)
    requires Arena(nd, ord) && |ord| + 1 < TWO64 && 1 <= m < |nd| && m !in ord
    requires Linked(nd, ord, l) && Trail(nd, ord, l, k, c) && Height(nd, 0) > l && Height(nd, m) <= l
    requires x == At(ord, k)
    ensures Linked(nd', Ins(ord, c, m), l)
    ensures |nd'| == |nd| && forall y :: Height(nd', y) == Height(nd, y)
    ensures forall y :: 0 <= y < |nd| ==> nd'[y].entry == nd[y].entry && |nd'[y].widths| == |nd[y].widths|
    ensures forall l' :: l' != l ==> SameOn(nd, nd', l')
  {
    TrailLink(nd, ord, l, k, c);
    if Fwd(nd, x, l) == NIL {
      nd' := nd;
    } else {
      nd' := SetWid(nd, x, l, Wrap(Wid(nd, x, l) as int + 1));
    }
    BumpLevel(nd, nd', ord, c, m, l, k);
  }

  /** insertNode's splice over levels [0, h) for a new tower m of height
      h, using the trail in the buffers. */
  method SpliceAll(nd: seq<Node>, ghost ord: seq<nat>, ghost c: nat, m: nat, h: nat,
                   cache: array<int>, posCache: array<u64>, pos: u64)
    returns (nd': seq<Node>)
    requires Arena(nd, ord) && |ord| < TWO64 && 1 <= m < |nd| && m !in ord
    requires Height(nd, m) == h && Height(nd, 0) >= h && c <= |ord| && pos as int == c + 1
    requires h <= cache.Length && h <= posCache.Length
    requires forall l :: 0 <= l < h ==>
               Linked(nd, ord, l) && Trail(nd, ord, l, posCache[l], c) && cache[l] == At(ord, posCache[l])
    ensures forall l :: 0 <= l < h ==> Linked(nd', Ins(ord, c, m), l)
    ensures |nd'| == |nd| && forall y :: Height(nd', y) == Height(nd, y)
    ensures forall y :: 0 <= y < |nd| ==> nd'[y].entry == nd[y].entry && |nd'[y].widths| == |nd[y].widths|
    ensures forall l :: l >= h ==> SameOn(nd, nd', l)
  {
    nd' := nd;
    var i := 0;
    while i < h
      invariant 0 <= i <= h
      invariant |nd'| == |nd| && forall y :: Height(nd', y) == Height(nd, y)
      invariant forall y :: 0 <= y < |nd| ==> nd'[y].entry == nd[y].entry && |nd'[y].widths| == |nd[y].widths|
      invariant forall l :: 0 <= l < i ==> Linked(nd', Ins(ord, c, m), l)
      invariant forall l :: l >= i ==> SameOn(nd, nd', l)
    {
      nd' := SpliceStep(nd', nd, ord, c, m, h, i, cache[i], posCache[i], pos);
      i := i + 1;
    }
  }

  /** One turn of insertNode's splice: level i below the new tower's top
      is spliced at the trail x of rank pc, and the other levels are kept. */
  method SpliceStep(nd: seq<Node>, ghost nd0: seq<Node>, ghost ord: seq<nat>, ghost c: nat, m: nat, h: nat, i: nat,
                    x: int, pc: u64, pos: u64)
    returns (nd': seq<Node>)
    requires Arena(nd0, ord) && |ord| < TWO64 && 1 <= m < |nd0| && m !in ord
    requires Height(nd0, m) == h && Height(nd0, 0) >= h && i < h && pos as int == c + 1
    requires Linked(nd0, ord, i) && Trail(nd0, ord, i, pc as int, c) && x == At(ord, pc as int)
    requires |nd| == |nd0| && forall y :: Height(nd, y) == Height(nd0, y)
    requires forall y :: 0 <= y < |nd0| ==> nd[y].entry == nd0[y].entry && |nd[y].widths| == |nd0[y].widths|
    requires forall l :: 0 <= l < i ==> Linked(nd, Ins(ord, c, m), l)
    requires forall l :: l >= i ==> SameOn(nd0, nd, l)
    ensures |nd'| == |nd0| && forall y :: Height(nd', y) == Height(nd0, y)
    ensures forall y :: 0 <= y < |nd0| ==> nd'[y].entry == nd0[y].entry && |nd'[y].widths| == |nd0[y].widths|
    ensures forall l :: 0 <= l < i + 1 ==> Linked(nd', Ins(ord, c, m), l)
    ensures forall l :: l >= i + 1 ==> SameOn(nd0, nd', l)
  {
    LinkedFrame(nd0, nd, ord, i);
    TrailFrame(nd0, nd, ord, i, pc as int, c);
    ArenaFrame(nd0, nd, ord);
    nd' := SpliceOne(nd, ord, c, m, i, x, pc, pos, pc as int);
    forall l | 0 <= l < i + 1 ensures Linked(nd', Ins(ord, c, m), l) {
      if l < i {
        LinkedFrame(nd, nd', Ins(ord, c, m), l);
      }
    }
    forall l | l > i ensures SameOn(nd0, nd', l) {
      SameOnTrans(nd0, nd, nd', l);
    }
  }

  /** insertNode's second pass over levels [h, top): every trail link
      there that is not NIL grows by one. */
  method BumpAll(nd: seq<Node>, ghost ord: seq<nat>, ghost c: nat, m: nat, h: nat, top: nat, cache: array<int>, ghost posCache: array<u64>)
    returns (nd': seq<Node>)
    requires Arena(nd, ord) && |ord| + 1 < TWO64 && 1 <= m < |nd| && m !in ord
    requires Height(nd, m) == h && Height(nd, 0) >= top && c <= |ord|
    requires top <= cache.Length && top <= posCache.Length
    requires forall l :: h <= l < top ==>
               Linked(nd, ord, l) && Trail(nd, ord, l, posCache[l], c) && cache[l] == At(ord, posCache[l])
    ensures forall l :: h <= l < top ==> Linked(nd', Ins(ord, c, m), l)
    ensures |nd'| == |nd| && forall y :: Height(nd', y) == Height(nd, y)
    ensures forall y :: 0 <= y < |nd| ==> nd'[y].entry == nd[y].entry && |nd'[y].widths| == |nd[y].widths|
    ensures forall l :: l < h || l >= top ==> SameOn(nd, nd', l)
  {
    nd' := nd;
    var i := h;
    while i < top
      invariant h <= i <= top || (top < h && i == h)
      invariant |nd'| == |nd| && forall y :: Height(nd', y) == Height(nd, y)
      invariant forall y :: 0 <= y < |nd| ==> nd'[y].entry == nd[y].entry && |nd'[y].widths| == |nd[y].widths|
      invariant forall l :: h <= l < i ==> Linked(nd', Ins(ord, c, m), l)
      invariant forall l :: l < h || l >= i ==> SameOn(nd, nd', l)
    {
      nd' := BumpStep(nd', nd, ord, c, m, h, i, cache[i], posCache[i]);
      i := i + 1;
    }
  }

  /** One turn of insertNode's second pass: level i at or above the new
      tower's top is bumped at the trail x of rank pc, and the other levels
      are kept. */
  method BumpStep(nd: seq<Node>, ghost nd0: seq<Node>, ghost ord: seq<nat>, ghost c: nat, m: nat, h: nat, i: nat,
                  x: int, ghost pc: u64)
    returns (nd': seq<Node>)
    requires Arena(nd0, ord) && |ord| + 1 < TWO64 && 1 <= m < |nd0| && m !in ord
    requires Height(nd0, m) == h && h <= i < Height(nd0, 0)
    requires Linked(nd0, ord, i) && Trail(nd0, ord, i, pc as int, c) && x == At(ord, pc as int)
    requires |nd| == |nd0| && forall y :: Height(nd, y) == Height(nd0, y)
    requires forall y :: 0 <= y < |nd0| ==> nd[y].entry == nd0[y].entry && |nd[y].widths| == |nd0[y].widths|
    requires forall l :: h <= l < i ==> Linked(nd, Ins(ord, c, m), l)
    requires forall l :: l < h || l >= i ==> SameOn(nd0, nd, l)
    ensures |nd'| == |nd0| && forall y :: Height(nd', y) == Height(nd0, y)
    ensures forall y :: 0 <= y < |nd0| ==> nd'[y].entry == nd0[y].entry && |nd'[y].widths| == |nd0[y].widths|
    ensures forall l :: h <= l < i + 1 ==> Linked(nd', Ins(ord, c, m), l)
    ensures forall l :: l < h || l >= i + 1 ==> SameOn(nd0, nd', l)
  {
    LinkedFrame(nd0, nd, ord, i);
    TrailFrame(nd0, nd, ord, i, pc as int, c);
    ArenaFrame(nd0, nd, ord);
    nd' := BumpOne(nd, ord, c, m, i, x, pc as int);
    forall l | h <= l < i + 1 ensures Linked(nd', Ins(ord, c, m), l) {
      if l < i {
        LinkedFrame(nd, nd', Ins(ord, c, m), l);
      }
    }
    forall l | l < h || l > i ensures SameOn(nd0, nd', l) {
      SameOnTrans(nd0, nd, nd', l);
    }
  }

  /** insertNode past its duplicate check: a new tower of height h holding
      `entry` is appended to the arena and linked in at rank c + 1 on every
      level, using the trail in the buffers for levels below top. */
  method InsertTower(nd: seq<Node>, ghost ord: seq<nat>, ghost c: nat, entry: Entry, h: nat, top: nat,
                     cache: array<int>, posCache: array<u64>, pos: u64)
    returns (nd': seq<Node>, m: nat)
    requires Arena(nd, ord) && |ord| + 1 < TWO64 && c <= |ord| && pos as int == c + 1
    requires 1 <= h <= top < Height(nd, 0) && top <= cache.Length && top <= posCache.Length
    requires forall i :: 0 <= i < |ord| ==> Height(nd, ord[i]) <= top
    requires forall l :: 0 <= l < Height(nd, 0) ==> Linked(nd, ord, l)
    requires forall l :: top <= l < Height(nd, 0) ==> Fwd(nd, 0, l) == NIL && Wid(nd, 0, l) == 0
    requires forall l :: 0 <= l < top ==> Trail(nd, ord, l, posCache[l], c) && cache[l] == At(ord, posCache[l])
    ensures m == |nd| && Towered(nd', Ins(ord, c, m), top, Height(nd, 0))
    ensures Height(nd', m) == h && nd'[0].entry == nd[0].entry
    ensures forall y :: 0 <= y < |nd| ==> Height(nd', y) == Height(nd, y)
    ensures Contents(nd', Ins(ord, c, m)) == Contents(nd, ord)[..c] + [entry] + Contents(nd, ord)[c..]
  {
    m := |nd|;
    var z := NewNode(Some(entry), h);
    var nd1 := nd + [z];
    AppendNode(nd, ord, z);
    assert m !in ord;
    var nd2 := SpliceAll(nd1, ord, c, m, h, cache, posCache, pos);
    forall l | h <= l < top ensures Linked(nd2, ord, l) && Trail(nd2, ord, l, posCache[l], c) {
      LinkedFrame(nd1, nd2, ord, l);
      TrailFrame(nd1, nd2, ord, l, posCache[l], c);
    }
    ArenaFrame(nd1, nd2, ord);
    nd' := BumpAll(nd2, ord, c, m, h, top, cache, posCache);
    ghost var o := Ins(ord, c, m);
    forall l | 0 <= l < h ensures Linked(nd', o, l) {
      LinkedFrame(nd2, nd', o, l);
    }
    forall l | top <= l < Height(nd, 0) ensures Fwd(nd', 0, l) == NIL && Wid(nd', 0, l) == 0 {
      assert SameOn(nd1, nd2, l) && SameOn(nd2, nd', l);
    }
    TowerInserted(nd, nd1, nd', ord, c, m, entry, h, top);
  }

  /** The new tower linked in on every level below top leaves a valid
      arena at level top holding the entry at rank c + 1. */
  lemma TowerInserted(nd: seq<Node>, nd1: seq<Node>, nd': seq<Node>, ord: seq<nat>, c: nat, m: nat,
                      entry: Entry, h: nat, top: nat)
    requires Arena(nd1, ord) && c <= |ord| && m == |nd| && nd1 == nd + [NewNode(Some(entry), h)]
    requires 1 <= h <= top < Height(nd, 0) && m !in ord
    requires forall i :: 0 <= i < |ord| ==> Height(nd, ord[i]) <= top
    requires |nd'| == |nd1| && forall y :: Height(nd', y) == Height(nd1, y)
    requires forall y :: 0 <= y < |nd1| ==> nd'[y].entry == nd1[y].entry && |nd'[y].widths| == |nd1[y].widths|
    requires forall l :: 0 <= l < top ==> Linked(nd', Ins(ord, c, m), l)
    requires forall l :: top <= l < Height(nd, 0) ==> Fwd(nd', 0, l) == NIL && Wid(nd', 0, l) == 0
    ensures Towered(nd', Ins(ord, c, m), top, Height(nd, 0))
    ensures Contents(nd', Ins(ord, c, m)) == Contents(nd, ord)[..c] + [entry] + Contents(nd, ord)[c..]
  {
    var o := Ins(ord, c, m);
    ArenaFrame(nd1, nd', ord);
    InsArena(nd', ord, c, m);
    forall i | 0 <= i < |o| ensures Height(nd', o[i]) <= top {
      if i < c {
        assert o[i] == o[..c][i] == ord[i];
      } else if i > c {
        assert o[i] == o[c + 1..][i - c - 1] == ord[i - 1];
      }
    }
    forall i | 0 <= i < |ord| ensures EntryOf(nd', ord[i]) == EntryOf(nd, ord[i]) {
      assert nd1[ord[i]] == nd[ord[i]];
    }
    ContentsIns(nd, nd', ord, c, m, entry);
  }

  /** insertNode's work on the towers past its duplicate check: a height
      h is drawn; when h is above the level, the levels up to h start their
      trail at the head and the level rises to h; then a tower holding
      entry is linked in at cut c. An empty list's trail is the head. */
  method GrowTower(nd: seq<Node>, ghost ord: seq<nat>, level: nat, ghost c: nat, entry: Entry, pos: u64,
                   coins: seq<bool>, cache: array<int>, posCache: array<u64>)
    returns (nd': seq<Node>, m: nat, level': nat)
    requires Towered(nd, ord, level, Height(nd, 0)) && 2 <= Height(nd, 0) < 256
    requires forall l :: 0 <= l < Height(nd, 0) ==> Linked(nd, ord, l)
    requires |coins| >= Height(nd, 0) && |ord| + 1 < TWO64 && c <= |ord| && pos as int == c + 1
    requires cache.Length == Height(nd, 0) && posCache.Length == Height(nd, 0)
    requires forall l :: 0 <= l < level ==> Trail(nd, ord, l, posCache[l], c) && cache[l] == At(ord, posCache[l])
    requires forall l :: level <= l < Height(nd, 0) ==> posCache[l] == 0
    requires level <= 1 || Fwd(nd, 0, level - 1) != NIL
    modifies cache
    ensures level <= level' < Height(nd, 0) && 1 <= level'
    ensures var h := Drawn(Height(nd, 0), coins); level' == (if h > level then h else level)
    ensures m == |nd| && Towered(nd', Ins(ord, c, m), level', Height(nd, 0))
    ensures level' == 1 || Fwd(nd', 0, level' - 1) != NIL
    ensures nd'[0].entry == nd[0].entry
    ensures Height(nd', m) == Drawn(Height(nd, 0), coins)
    ensures Good(nd', Ins(ord, c, m), level', (|ord| + 1) as u64, Height(nd, 0), cache, posCache)
    ensures Contents(nd', Ins(ord, c, m)) == Contents(nd, ord)[..c] + [entry] + Contents(nd, ord)[c..]
    ensures forall l :: 0 <= l < cache.Length ==> cache[l] == if level <= l < level' then 0 else old(cache[l])
  {
    var h := GenerateLevel(Height(nd, 0), coins);
    level' := level;
    if h > level {
      PointAtHead(cache, level, h);
      level' := h;
    }
    forall l | 0 <= l < level' ensures Trail(nd, ord, l, posCache[l], c) && cache[l] == At(ord, posCache[l]) {
      if l >= level {
        assert posCache[l] == 0;
        assert forall j :: 0 < j <= c ==> Ht(nd, ord, j) <= l by {
          forall j | 0 < j <= c ensures Ht(nd, ord, j) <= l {
            assert Height(nd, ord[j - 1]) <= level;
          }
        }
      }
    }
    nd', m := InsertTower(nd, ord, c, entry, h, level', cache, posCache, pos);
    HeadStillSet(nd, nd', ord, c, m, level, h, level');
  }

  /** After insertNode the head's link just below the level is set again:
      the new tower reaches it when it raised the level, and otherwise the
      tower that reached it before still does. */
  lemma HeadStillSet(nd: seq<Node>, nd': seq<Node>, ord: seq<nat>, c: nat, m: nat, level: nat, h: nat, level': nat)
    requires c <= |ord| && m == |nd| && forall i :: 0 <= i < |ord| ==> ord[i] < |nd|
    requires 1 <= level' && level' == if h > level then h else level
    requires level > 1 ==> Linked(nd, ord, level - 1) && Height(nd, 0) >= level && Fwd(nd, 0, level - 1) != NIL
    requires level' > 1 ==> Linked(nd', Ins(ord, c, m), level' - 1) && Height(nd', 0) >= level'
    requires Height(nd', m) == h && forall y :: 0 <= y < |nd| ==> Height(nd', y) == Height(nd, y)
    ensures level' == 1 || Fwd(nd', 0, level' - 1) != NIL
  {
    if level' > 1 {
      var o := Ins(ord, c, m);
      HeadLink(nd', o, level' - 1);
      if h > level {
        assert m == o[c] && m in o;
      } else {
        HeadLink(nd, ord, level - 1);
        var y :| y in ord && Height(nd, y) > level - 1;
        assert y in o && Height(nd', y) == Height(nd, y) by {
          var i :| 0 <= i < |ord| && ord[i] == y;
          if i < c { assert o[i] == ord[i]; } else { assert o[i + 1] == ord[i]; }
        }
      }
    }
  }

  /** The levels insertNode raises the list to start their trail at the
      head: cache[from..to] is set to node 0. */
  method PointAtHead(cache: array<int>, from: nat, to: nat)
    requires from <= to <= cache.Length
    modifies cache
    ensures forall l :: 0 <= l < cache.Length ==> cache[l] == if from <= l < to then 0 else old(cache[l])
  {
    var i := from;
    while i < to
      invariant from <= i <= to
      invariant forall l :: 0 <= l < cache.Length ==> cache[l] == if from <= l < i then 0 else old(cache[l])
    {
      cache[i] := 0;
      i := i + 1;
    }
  }

  /** The bound of generateLevel's loop: maxLevel - 1 in 8-bit unsigned
      arithmetic, so 255 when maxLevel is 0. */
  function LevelBound(maxLevel: nat): nat
  {
    (maxLevel + 255) % 256
  }

  /** The height generateLevel draws from `coins` when it has reached
      level lv: the first level from lv on whose draw stops the climb, or
      the bound if none does. */
  ghost function DrawFrom(bound: nat, coins: seq<bool>, lv: nat): nat
    requires 1 <= lv && |coins| + 1 >= bound
    decreases bound - lv
  {
    if lv >= bound || coins[lv - 1] then lv else DrawFrom(bound, coins, lv + 1)
  }

  /** The height generateLevel(maxLevel) draws from `coins`. */
  ghost function Drawn(maxLevel: nat, coins: seq<bool>): nat
    requires |coins| + 1 >= LevelBound(maxLevel)
  {
    DrawFrom(LevelBound(maxLevel), coins, 1)
  }

  /** generateLevel(maxLevel): starting from 1, raise the level while the
      draw says to go on and the level is below maxLevel - 1; coins[i] is
      the draw made at level i + 1, true when it stops the climb. */
  method GenerateLevel(maxLevel: nat, coins: seq<bool>) returns (level: nat)
    requires maxLevel < 256 && |coins| + 1 >= LevelBound(maxLevel)
    ensures 1 <= level && (level <= LevelBound(maxLevel) || level == 1)
    ensures 2 <= maxLevel ==> level < maxLevel
    ensures forall j :: 0 <= j < level - 1 ==> !coins[j]
    ensures level < LevelBound(maxLevel) ==> coins[level - 1]
    ensures level == Drawn(maxLevel, coins)
  {
    level := 1;
    while level < LevelBound(maxLevel)
      invariant 1 <= level && (level <= LevelBound(maxLevel) || level == 1)
      invariant forall j :: 0 <= j < level - 1 ==> !coins[j]
      invariant DrawFrom(LevelBound(maxLevel), coins, level) == Drawn(maxLevel, coins)
    {
      if coins[level - 1] {
        return;
      }
      level := level + 1;
    }
  }

  // ---------------------------------------------------------------------
  // delete's pass over the levels and its level shrink

  /** Level l of delete: a trail link to the removed tower n takes n's link
      and the two widths joined (0 when n ended the level: the corrected
      rule); any other trail link that is not NIL spans one rank less. */
  method UnlinkOne(nd: seq<Node>, ghost ord: seq<nat>, ghost c: nat, l: nat, x: int, n: int, ghost k: nat)
    returns (nd': seq<Node>)
    requires Arena(nd, ord) && c < |ord| && |ord| < TWO64
    requires Linked(nd, ord, l) && Trail(nd, ord, l, k, c) && Height(nd, 0) > l
    requires x == At(ord, k) && n == At(ord, c + 1)
    ensures Linked(nd', Del(ord, c), l)
    ensures |nd'| == |nd| && forall y :: Height(nd', y) == Height(nd, y)
    ensures forall y :: 0 <= y < |nd| ==> nd'[y].entry == nd[y].entry && |nd'[y].widths| == |nd[y].widths|
    ensures forall l' :: l' != l ==> SameOn(nd, nd', l')
  {
    TrailLink(nd, ord, l, k, c);
    if Fwd(nd, x, l) != n {
      if Fwd(nd, x, l) != NIL {
        nd' := SetWid(nd, x, l, Wid(nd, x, l) - 1);
      } else {
        nd' := nd;
      }
    } else {
      var w := Wrap(Wid(nd, x, l) as int + Wid(nd, n, l) as int - 1);
      if Wid(nd, n, l) == 0 {
        w := 0;
      }
      nd' := SetWid(nd, x, l, w);
      nd' := SetFwd(nd', x, l, Fwd(nd, n, l));
      assert LinkOK(nd, ord, c + 1, l);
    }
    UnlinkLevel(nd, nd', ord, c, l, k);
  }

  /** delete's step on level l exactly as written: a trail link to the
      removed tower n takes over n's link and grows by n's width minus one,
      even when n's width is 0 because n ended the level. */
  function UnlinkOneAsWritten(nd: seq<Node>, x: int, n: int, l: nat): (r: seq<Node>)
    requires 0 <= x < |nd| && l < |nd[x].forward| && l < |nd[x].widths|
    ensures |r| == |nd| && forall y :: Height(r, y) == Height(nd, y)
    ensures Fwd(nd, x, l) == n ==> Fwd(r, x, l) == Fwd(nd, n, l)
    ensures Fwd(nd, x, l) == n ==> Wid(r, x, l) == Wrap(Wid(nd, x, l) as int + Wid(nd, n, l) as int - 1)
  {
    if Fwd(nd, x, l) != n then
      if Fwd(nd, x, l) != NIL then SetWid(nd, x, l, Wrap(Wid(nd, x, l) as int - 1)) else nd
    else
      SetFwd(SetWid(nd, x, l, Wrap(Wid(nd, x, l) as int + Wid(nd, n, l) as int - 1)), x, l, Fwd(nd, n, l))
  }

  /** A list of maxLevel 8 at level 2: a (height 1) at rank 1, b (height 2)
      at rank 2, the last entry, so b ends level 1. */
  const TallTailNodes: seq<Node> := [
    Node(None, [1, 2, NIL, NIL, NIL, NIL, NIL, NIL], [1, 2, 0, 0, 0, 0, 0, 0]),
    Node(Some(Entry(1, 1)), [2], [1]),
    Node(Some(Entry(2, 2)), [NIL, NIL], [0, 0])]

  /** Deleting b from that valid list with the step as written leaves the
      head's level-1 link NIL with width 1, so level 1 is no longer right:
      searchByPosition follows a non-zero width and reads through NIL. The
      corrected step (UnlinkOne) keeps every level right. */
  lemma DeleteTallTailAsWritten()
    ensures Towered(TallTailNodes, [1, 2], 2, 8) && Trail(TallTailNodes, [1, 2], 1, 0, 1)
    ensures var nd' := UnlinkOneAsWritten(TallTailNodes, 0, 2, 1);
            Fwd(nd', 0, 1) == NIL && Wid(nd', 0, 1) == 1 && !Linked(nd', Del([1, 2], 1), 1)
  {
    TallTailTowered();
    var nd' := UnlinkOneAsWritten(TallTailNodes, 0, 2, 1);
    assert Del([1, 2], 1) == [1];
    assert LinkOK(nd', [1], 0, 1) ==> false;
  }

  /** That list is valid at level 2, and the head is level 1's trail
      for deleting rank 2. */
  lemma TallTailTowered()
    ensures Towered(TallTailNodes, [1, 2], 2, 8) && Trail(TallTailNodes, [1, 2], 1, 0, 1)
  {
    TallTailLinked(0);
    TallTailLinked(1);
  }

  /** Levels 0 and 1 of that list are right. */
  lemma TallTailLinked(l: nat)
    requires l < 2
    ensures Linked(TallTailNodes, [1, 2], l)
  {
    var nd, ord := TallTailNodes, [1, 2];
    forall k | 0 <= k <= |ord| && Ht(nd, ord, k) > l ensures LinkOK(nd, ord, k, l) {
      assert k == 0 || k == 1 || k == 2;
    }
  }

  /** delete's pass over levels 0 to top, using the trail in the buffers. */
  method UnlinkAll(nd: seq<Node>, ghost ord: seq<nat>, ghost c: nat, top: nat, n: int,
                   cache: array<int>, posCache: array<u64>)
    returns (nd': seq<Node>)
    requires Arena(nd, ord) && c < |ord| && |ord| < TWO64 && n == At(ord, c + 1)
    requires top < Height(nd, 0) && top < cache.Length && top < posCache.Length
    requires forall l :: 0 <= l <= top ==>
               Linked(nd, ord, l) && Trail(nd, ord, l, posCache[l], c) && cache[l] == At(ord, posCache[l])
    ensures forall l :: 0 <= l <= top ==> Linked(nd', Del(ord, c), l)
    ensures |nd'| == |nd| && forall y :: Height(nd', y) == Height(nd, y)
    ensures forall y :: 0 <= y < |nd| ==> nd'[y].entry == nd[y].entry && |nd'[y].widths| == |nd[y].widths|
    ensures forall l :: l > top ==> SameOn(nd, nd', l)
  {
    nd' := nd;
    var i := 0;
    while i <= top
      invariant 0 <= i <= top + 1
      invariant |nd'| == |nd| && forall y :: Height(nd', y) == Height(nd, y)
      invariant forall y :: 0 <= y < |nd| ==> nd'[y].entry == nd[y].entry && |nd'[y].widths| == |nd[y].widths|
      invariant forall l :: 0 <= l < i ==> Linked(nd', Del(ord, c), l)
      invariant forall l :: l >= i ==> SameOn(nd, nd', l)
    {
      nd' := UnlinkStep(nd', nd, ord, c, i, cache[i], n, posCache[i]);
      i := i + 1;
    }
  }

  /** One turn of delete's pass: level i is unlinked at the trail x of
      rank pc, and the other levels are kept. */
  method UnlinkStep(nd: seq<Node>, ghost nd0: seq<Node>, ghost ord: seq<nat>, ghost c: nat, i: nat,
                    x: int, n: int, pc: u64)
    returns (nd': seq<Node>)
    requires Arena(nd0, ord) && c < |ord| && |ord| < TWO64 && n == At(ord, c + 1) && i < Height(nd0, 0)
    requires Linked(nd0, ord, i) && Trail(nd0, ord, i, pc as int, c) && x == At(ord, pc as int)
    requires |nd| == |nd0| && forall y :: Height(nd, y) == Height(nd0, y)
    requires forall y :: 0 <= y < |nd0| ==> nd[y].entry == nd0[y].entry && |nd[y].widths| == |nd0[y].widths|
    requires forall l :: 0 <= l < i ==> Linked(nd, Del(ord, c), l)
    requires forall l :: l >= i ==> SameOn(nd0, nd, l)
    ensures |nd'| == |nd0| && forall y :: Height(nd', y) == Height(nd0, y)
    ensures forall y :: 0 <= y < |nd0| ==> nd'[y].entry == nd0[y].entry && |nd'[y].widths| == |nd0[y].widths|
    ensures forall l :: 0 <= l < i + 1 ==> Linked(nd', Del(ord, c), l)
    ensures forall l :: l >= i + 1 ==> SameOn(nd0, nd', l)
  {
    LinkedFrame(nd0, nd, ord, i);
    TrailFrame(nd0, nd, ord, i, pc as int, c);
    ArenaFrame(nd0, nd, ord);
    nd' := UnlinkOne(nd, ord, c, i, x, n, pc as int);
    forall l | 0 <= l < i + 1 ensures Linked(nd', Del(ord, c), l) {
      if l < i {
        LinkedFrame(nd, nd', Del(ord, c), l);
      }
    }
    forall l | l > i ensures SameOn(nd0, nd', l) {
      SameOnTrans(nd0, nd, nd', l);
    }
  }

  /** delete's closing loop: while the level is above 1 and the head's link
      just below it is NIL, clear the head's width at the level and go down
      one. */
  method Shrink(nd: seq<Node>, ghost ord: seq<nat>, level: nat) returns (nd': seq<Node>, level': nat)
    requires Arena(nd, ord) && 1 <= level < Height(nd, 0)
    requires forall i :: 0 <= i < |ord| ==> Height(nd, ord[i]) <= level
    requires forall l :: 0 <= l <= level ==> Linked(nd, ord, l)
    requires forall l :: level < l < Height(nd, 0) ==> Fwd(nd, 0, l) == NIL && Wid(nd, 0, l) == 0
    requires Fwd(nd, 0, level) == NIL
    ensures 1 <= level' <= level && Towered(nd', ord, level', Height(nd, 0))
    ensures level' == 1 || Fwd(nd', 0, level' - 1) != NIL
    ensures forall l :: level' <= l <= level ==> Fwd(nd, 0, l) == NIL
    ensures nd' == nd
  {
    HeadNil(nd, ord, level);
    nd', level' := nd, level;
    while level' > 1 && Fwd(nd', 0, level' - 1) == NIL
      invariant 1 <= level' <= level && |nd'| == |nd|
      invariant forall y :: 0 <= y < |nd| ==> nd'[y] == nd[y]
      invariant Fwd(nd, 0, level') == NIL && Wid(nd, 0, level') == 0
      invariant forall l :: level' <= l <= level ==> Fwd(nd, 0, l) == NIL
      invariant forall i :: 0 <= i < |ord| ==> Height(nd, ord[i]) <= level'
    {
      nd' := SetWid(nd', 0, level', 0);
      assert nd'[0] == nd[0] by {
        assert nd[0].widths[level' := 0] == nd[0].widths;
      }
      level' := level' - 1;
      HeadNil(nd, ord, level');
      forall i | 0 <= i < |ord| ensures Height(nd, ord[i]) <= level' {
        assert Ht(nd, ord, i + 1) <= level';
      }
    }
    assert nd' == nd;
    forall l | level' <= l <= level ensures Wid(nd, 0, l) == 0 {
      HeadNil(nd, ord, l);
    }
  }

  /** delete past its match check: the tower n at rank c + 1 is unlinked on
      every level up to `level`, then the level shrinks. The trail slots of
      the levels given up were at the head. */
  method RemoveTower(nd: seq<Node>, ghost ord: seq<nat>, ghost c: nat, level: nat, n: int,
                     cache: array<int>, posCache: array<u64>)
    returns (nd': seq<Node>, level': nat)
    requires Towered(nd, ord, level, Height(nd, 0)) && 1 <= level && c < |ord| && |ord| < TWO64
    requires n == At(ord, c + 1) && level < cache.Length && level < posCache.Length
    requires forall l :: 0 <= l < Height(nd, 0) ==> Linked(nd, ord, l)
    requires forall l :: 0 <= l <= level ==> Trail(nd, ord, l, posCache[l], c) && cache[l] == At(ord, posCache[l])
    ensures 1 <= level' <= level && Towered(nd', Del(ord, c), level', Height(nd, 0))
    ensures level' == 1 || Fwd(nd', 0, level' - 1) != NIL
    ensures nd'[0].entry == nd[0].entry
    ensures forall l :: level' <= l <= level ==> posCache[l] == 0
    ensures Contents(nd', Del(ord, c)) == Contents(nd, ord)[..c] + Contents(nd, ord)[c + 1..]
  {
    var nd1 := UnlinkAll(nd, ord, c, level, n, cache, posCache);
    ghost var o := Del(ord, c);
    ArenaFrame(nd, nd1, ord);
    DelArena(nd1, ord, c);
    forall i | 0 <= i < |o| ensures Height(nd1, o[i]) <= level {
      if i < c {
        assert o[i] == o[..c][i] == ord[i];
      } else {
        assert o[i] == o[c..][i - c] == ord[i + 1];
      }
    }
    forall l | level < l < Height(nd, 0) ensures Fwd(nd1, 0, l) == NIL && Wid(nd1, 0, l) == 0 {
      assert SameOn(nd, nd1, l);
    }
    forall j | 0 < j <= |o| ensures Ht(nd1, o, j) <= level {
      assert Height(nd1, o[j - 1]) <= level;
    }
    HeadNilBack(nd1, o, level);
    nd', level' := Shrink(nd1, o, level);
    forall l | level' <= l <= level ensures posCache[l] == 0 {
      DelTrailHead(nd, nd1, ord, c, l, posCache[l]);
    }
    forall i | 0 <= i < |ord| ensures EntryOf(nd', ord[i]) == EntryOf(nd, ord[i]) {
    }
    ContentsDel(nd, nd', ord, c);
  }
  /** splitAt's step on level l for cut c: the right head takes over the
      link of the trail node x (rank k), its width shortened by the c - k
      ranks left behind unless the link ends the level; then x's link
      ends the level. nd0 is the arena before the cut. */
  method CutOne(nd: seq<Node>, rd: seq<Node>, ghost nd0: seq<Node>, ghost ord: seq<nat>, c: u64, l: nat,
                x: int, pc: u64, ghost k: nat)
    returns (nd': seq<Node>, rd': seq<Node>)
    requires Arena(nd0, ord) && Linked(nd0, ord, l) && Trail(nd0, ord, l, k, c as int) && Height(nd0, 0) > l
    requires x == At(ord, k) && pc as int == k
    requires SameOn(nd0, nd, l) && l < |nd[x].widths|
    requires SameExcept(nd0, rd, l, 0, 0) && Fwd(rd, 0, l) == NIL && Wid(rd, 0, l) == 0 && l < |rd[0].widths|
    ensures Linked(nd', ord[..c], l) && Linked(rd', ord[c..], l)
    ensures |nd'| == |nd| && forall y :: Height(nd', y) == Height(nd, y)
    ensures forall y :: 0 <= y < |nd| ==> nd'[y].entry == nd[y].entry && |nd'[y].widths| == |nd[y].widths|
    ensures |rd'| == |rd| && forall y :: Height(rd', y) == Height(rd, y)
    ensures forall y :: 0 <= y < |rd| ==> rd'[y].entry == rd[y].entry && |rd'[y].widths| == |rd[y].widths|
    ensures forall l' :: l' != l ==> SameOn(nd, nd', l') && SameOn(rd, rd', l')
  {
    assert LinkOK(nd0, ord, k, l);
    var f, w := Fwd(nd, x, l), Wid(nd, x, l);
    rd' := SetFwd(rd, 0, l, f);
    if w != 0 {
      rd' := SetWid(rd', 0, l, w - (c - pc));
    }
    nd' := SetWid(nd, x, l, 0);
    nd' := SetFwd(nd', x, l, NIL);
    CutLeftLevel(nd0, nd', ord, c as int, l, k);
    CutRightLevel(nd0, rd', ord, c as int, l, k);
  }

  /** splitAt's pass over levels 0 to top for cut c, using the trail in
      the buffers: the left arena ends every level at the trail, and the
      right arena, whose head is a new tower as tall as the old one, starts
      every level where the trail's link went. */
  method CutAll(nd: seq<Node>, ghost ord: seq<nat>, c: u64, top: nat, cache: array<int>, posCache: array<u64>)
    returns (nd': seq<Node>, rd: seq<Node>)
    requires Arena(nd, ord) && c as int <= |ord| && top < Height(nd, 0)
    requires top < cache.Length && top < posCache.Length
    requires forall l :: 0 <= l <= top ==>
               Linked(nd, ord, l) && Trail(nd, ord, l, posCache[l], c as int) && cache[l] == At(ord, posCache[l])
    ensures forall l :: 0 <= l <= top ==> Linked(nd', ord[..c], l) && Linked(rd, ord[c..], l)
    ensures |nd'| == |nd| && forall y :: Height(nd', y) == Height(nd, y)
    ensures forall y :: 0 <= y < |nd| ==> nd'[y].entry == nd[y].entry && |nd'[y].widths| == |nd[y].widths|
    ensures |rd| == |nd| && (forall y :: Height(rd, y) == Height(nd, y)) && |rd[0].widths| == Height(nd, 0)
    ensures forall y :: 1 <= y < |nd| ==> rd[y].entry == nd[y].entry && |rd[y].widths| == |nd[y].widths|
    ensures rd[0].entry == None
    ensures forall l :: l > top ==> SameOn(nd, nd', l) && Fwd(rd, 0, l) == NIL && Wid(rd, 0, l) == 0
  {
    nd' := nd;
    rd := nd[0 := NewNode(None, Height(nd, 0))];
    assert forall l :: SameExcept(nd, rd, l, 0, 0);
    var i := 0;
    while i <= top
      invariant 0 <= i <= top + 1
      invariant |nd'| == |nd| && forall y :: Height(nd', y) == Height(nd, y)
      invariant forall y :: 0 <= y < |nd| ==> nd'[y].entry == nd[y].entry && |nd'[y].widths| == |nd[y].widths|
      invariant |rd| == |nd| && (forall y :: Height(rd, y) == Height(nd, y)) && |rd[0].widths| == Height(nd, 0)
      invariant forall y :: 1 <= y < |nd| ==> rd[y].entry == nd[y].entry && |rd[y].widths| == |nd[y].widths|
      invariant rd[0].entry == None
      invariant forall l :: 0 <= l < i ==> Linked(nd', ord[..c], l) && Linked(rd, ord[c..], l)
      invariant forall l :: l >= i ==> SameOn(nd, nd', l) && SameExcept(nd, rd, l, 0, 0) &&
                                       Fwd(rd, 0, l) == NIL && Wid(rd, 0, l) == 0
    {
      nd', rd := CutStep(nd', rd, nd, ord, c, i, cache[i], posCache[i]);
      i := i + 1;
    }
  }

  /** One turn of splitAt's pass: level i is cut at the trail x of rank pc
      and the levels already cut, and those not yet cut, are kept. */
  method CutStep(nd: seq<Node>, rd: seq<Node>, ghost nd0: seq<Node>, ghost ord: seq<nat>, c: u64, i: nat,
                 x: int, pc: u64)
    returns (nd': seq<Node>, rd': seq<Node>)
    requires Arena(nd0, ord) && c as int <= |ord| && i < Height(nd0, 0)
    requires Linked(nd0, ord, i) && Trail(nd0, ord, i, pc as int, c as int) && x == At(ord, pc as int)
    requires |nd| == |nd0| && forall y :: Height(nd, y) == Height(nd0, y)
    requires forall y :: 0 <= y < |nd0| ==> nd[y].entry == nd0[y].entry && |nd[y].widths| == |nd0[y].widths|
    requires |rd| == |nd0| && (forall y :: Height(rd, y) == Height(nd0, y)) && |rd[0].widths| == Height(nd0, 0)
    requires forall y :: 1 <= y < |nd0| ==> rd[y].entry == nd0[y].entry && |rd[y].widths| == |nd0[y].widths|
    requires forall l :: 0 <= l < i ==> Linked(nd, ord[..c], l) && Linked(rd, ord[c..], l)
    requires forall l :: l >= i ==> SameOn(nd0, nd, l) && SameExcept(nd0, rd, l, 0, 0) &&
                                    Fwd(rd, 0, l) == NIL && Wid(rd, 0, l) == 0
    ensures |nd'| == |nd0| && forall y :: Height(nd', y) == Height(nd0, y)
    ensures forall y :: 0 <= y < |nd0| ==> nd'[y].entry == nd0[y].entry && |nd'[y].widths| == |nd0[y].widths|
    ensures |rd'| == |nd0| && (forall y :: Height(rd', y) == Height(nd0, y)) && |rd'[0].widths| == Height(nd0, 0)
    ensures forall y :: 1 <= y < |nd0| ==> rd'[y].entry == nd0[y].entry && |rd'[y].widths| == |nd0[y].widths|
    ensures rd'[0].entry == rd[0].entry
    ensures forall l :: 0 <= l < i + 1 ==> Linked(nd', ord[..c], l) && Linked(rd', ord[c..], l)
    ensures forall l :: l >= i + 1 ==> SameOn(nd0, nd', l) && SameExcept(nd0, rd', l, 0, 0) &&
                                       Fwd(rd', 0, l) == NIL && Wid(rd', 0, l) == 0
  {
    assert Height(nd, x) == Height(nd0, x) > i;
    nd', rd' := CutOne(nd, rd, nd0, ord, c, i, x, pc, pc as int);
    forall l | 0 <= l < i + 1 ensures Linked(nd', ord[..c], l) && Linked(rd', ord[c..], l) {
      if l < i {
        LinkedFrame(nd, nd', ord[..c], l);
        LinkedFrame(rd, rd', ord[c..], l);
      }
    }
    forall l | l > i ensures SameOn(nd0, nd', l) && SameExcept(nd0, rd', l, 0, 0) && Fwd(rd', 0, l) == NIL && Wid(rd', 0, l) == 0 {
      SameOnTrans(nd0, nd, nd', l);
      assert SameOn(rd, rd', l);
    }
  }

  /** splitAt's towers: both parts of the cut at c keep the level, with
      the entries before c on the left and the rest on the right; a level
      whose left head link ends up NIL had its trail at the head. */
  method SplitTowers(nd: seq<Node>, ghost ord: seq<nat>, c: u64, level: nat, cache: array<int>, posCache: array<u64>)
    returns (nd': seq<Node>, rd: seq<Node>)
    requires Towered(nd, ord, level, Height(nd, 0)) && level < Height(nd, 0) && c as int <= |ord|
    requires level < cache.Length && level < posCache.Length
    requires forall l :: 0 <= l < Height(nd, 0) ==> Linked(nd, ord, l)
    requires forall l :: 0 <= l <= level ==> Trail(nd, ord, l, posCache[l], c as int) && cache[l] == At(ord, posCache[l])
    ensures Towered(nd', ord[..c], level, Height(nd, 0)) && Towered(rd, ord[c..], level, Height(nd, 0))
    ensures Contents(nd', ord[..c]) == Contents(nd, ord)[..c]
    ensures Contents(rd, ord[c..]) == Contents(nd, ord)[c..]
    ensures forall l :: 0 <= l <= level && Fwd(nd', 0, l) == NIL ==> posCache[l] == 0
    ensures c == 0 ==> forall l :: 0 <= l <= level ==> cache[l] == 0 && posCache[l] == 0
    ensures nd'[0].entry == nd[0].entry && rd[0].entry == None
  {
    nd', rd := CutAll(nd, ord, c, level, cache, posCache);
    CutArena(nd, nd', rd, ord, c as int);
    var a, b := ord[..c], ord[c..];
    assert forall i :: 0 <= i < |a| ==> a[i] == ord[i];
    assert forall i :: 0 <= i < |b| ==> b[i] == ord[i + c as int];
    forall l | l > level ensures Fwd(nd', 0, l) == NIL && Wid(nd', 0, l) == 0 {
      assert SameOn(nd, nd', l);
      assert l < Height(nd, 0) ==> Fwd(nd, 0, l) == NIL && Wid(nd, 0, l) == 0;
    }
    PartTowered(nd', a, level);
    PartTowered(rd, b, level);
    forall l | 0 <= l <= level && Fwd(nd', 0, l) == NIL ensures posCache[l] == 0 {
      CutTrailHead(nd, nd', ord, c as int, l, posCache[l]);
    }
  }

  /** One part of a cut: its towers are at most level tall and right on
      every level up to it, and the head's links above it are NIL. */
  lemma PartTowered(nd: seq<Node>, ord: seq<nat>, level: nat)
    requires Arena(nd, ord) && level < Height(nd, 0)
    requires forall i :: 0 <= i < |ord| ==> Height(nd, ord[i]) <= level
    requires forall l :: 0 <= l <= level ==> Linked(nd, ord, l)
    requires forall l :: l > level ==> Fwd(nd, 0, l) == NIL && Wid(nd, 0, l) == 0
    ensures Towered(nd, ord, level, Height(nd, 0))
  {
    forall j | 0 < j <= |ord| ensures Ht(nd, ord, j) <= level {
      assert Height(nd, ord[j - 1]) <= level;
    }
    HeadNilBack(nd, ord, level);
  }
}
