/** The tower structure of the skip list, on values: an arena of nodes in
    which node 0 is the head and links are node indices, the order of the
    nodes along level 0, and the per-level property that every width is
    the rank distance to the next tower on that level (0 at the level's
    end).  The lemmas here are the per-level facts the list's mutators
    rely on: splicing a tower in, bumping a width over it, unlinking one,
    and cutting the levels at a rank. */
module Towers {
  import opened Entries

  const NIL: int := -1
  const TWO64: int := 0x1_0000_0000_0000_0000

  /** Unsigned 64-bit integers: counts, ranks and widths. */
  type u64 = x: int | 0 <= x < TWO64

  /** Reduction modulo 2^64, for the places where unsigned arithmetic wraps. */
  function Wrap(x: int): (r: u64)
    ensures 0 <= x < TWO64 ==> r == x
    ensures TWO64 <= x < 2 * TWO64 ==> r == x - TWO64
    ensures -TWO64 <= x < 0 ==> r == x + TWO64
  {
    x % TWO64
  }

  /** One tower: its entry (none for the head) and, per level, the link to
      the next tower on that level (NIL at the level's end) and the number
      of ranks that link spans. */
  datatype Node = Node(entry: Option<Entry>, forward: seq<int>, widths: seq<u64>)

  /** newNode(entry, h): a tower of height h whose links are all NIL and
      whose widths are all 0. */
  function NewNode(entry: Option<Entry>, h: nat): (n: Node)
    ensures n.entry == entry && |n.forward| == h && |n.widths| == h
    ensures forall i :: 0 <= i < h ==> n.forward[i] == NIL && n.widths[i] == 0
  {
    Node(entry, seq(h, _ => NIL), seq(h, _ => 0))
  }

  // Total accessors: out of range they read as a missing tower.

  function Height(nd: seq<Node>, x: int): nat
  {
    if 0 <= x < |nd| then |nd[x].forward| else 0
  }

  function Fwd(nd: seq<Node>, x: int, l: int): int
  {
    if 0 <= x < |nd| && 0 <= l < |nd[x].forward| then nd[x].forward[l] else NIL
  }

  function Wid(nd: seq<Node>, x: int, l: int): u64
  {
    if 0 <= x < |nd| && 0 <= l < |nd[x].widths| then nd[x].widths[l] else 0
  }

  /** The node at 1-based rank k along level 0; rank 0 is the head, node 0. */
  function At(ord: seq<nat>, k: int): nat
  {
    if 1 <= k <= |ord| then ord[k - 1] else 0
  }

  /** Height of the tower at rank k. */
  function Ht(nd: seq<Node>, ord: seq<nat>, k: int): nat
  {
    Height(nd, At(ord, k))
  }

  /** The entry of a node, read as a plain entry. */
  function EntryOf(nd: seq<Node>, x: int): Entry
  {
    if 0 <= x < |nd| && nd[x].entry.Some? then nd[x].entry.value else Entry(0, 0)
  }

  /** The entries along level 0, in rank order. */
  function Contents(nd: seq<Node>, ord: seq<nat>): (s: seq<Entry>)
    ensures |s| == |ord|
    ensures forall i :: 0 <= i < |ord| ==> s[i] == EntryOf(nd, ord[i])
  {
    seq(|ord|, i requires 0 <= i < |ord| => EntryOf(nd, ord[i]))
  }

  /** Every node has as many widths as links, and the level-0 order lists
      non-head nodes, each holding an entry and standing at least one level
      tall. */
  ghost predicate Placed(nd: seq<Node>, ord: seq<nat>)
  {
    |nd| >= 1 &&
    (forall x :: 0 <= x < |nd| ==> |nd[x].forward| == |nd[x].widths|) &&
    (forall i :: 0 <= i < |ord| ==> 1 <= ord[i] < |nd| && nd[ord[i]].entry.Some? && |nd[ord[i]].forward| >= 1)
  }

  /** The arena's shape: nodes placed as above, none listed twice. */
  ghost predicate Arena(nd: seq<Node>, ord: seq<nat>)
  {
    Placed(nd, ord) && forall i, j :: 0 <= i < j < |ord| ==> ord[i] != ord[j]
  }

  /** The link at rank k on level l is right: a width of 0 marks the level's
      end, and otherwise the width is the rank distance to the next tower
      taller than l, which is where the link points. */
  ghost predicate LinkOK(nd: seq<Node>, ord: seq<nat>, k: int, l: int)
  {
    var x := At(ord, k);
    var w := Wid(nd, x, l);
    if w == 0 then
      Fwd(nd, x, l) == NIL && forall j :: k < j <= |ord| ==> Ht(nd, ord, j) <= l
    else
      k + w <= |ord| && Fwd(nd, x, l) == At(ord, k + w) && Ht(nd, ord, k + w) > l &&
      forall j :: k < j < k + w ==> Ht(nd, ord, j) <= l
  }

  /** Every link on level l is right. */
  ghost predicate Linked(nd: seq<Node>, ord: seq<nat>, l: int)
  {
    forall k {:trigger LinkOK(nd, ord, k, l)} :: 0 <= k <= |ord| && Ht(nd, ord, k) > l ==> LinkOK(nd, ord, k, l)
  }

  /** Rank k is level l's update trail for cut c: the last tower taller
      than l at or before rank c (the head when there is none). */
  ghost predicate Trail(nd: seq<Node>, ord: seq<nat>, l: int, k: int, c: int)
  {
    0 <= k <= c <= |ord| && (k == 0 || Ht(nd, ord, k) > l) &&
    forall j :: k < j <= c ==> Ht(nd, ord, j) <= l
  }

  /** nd' equals nd on level l: same heights, same links and widths there. */
  ghost predicate SameOn(nd: seq<Node>, nd': seq<Node>, l: int)
  {
    |nd'| == |nd| &&
    (forall y :: Height(nd', y) == Height(nd, y)) &&
    (forall y :: Fwd(nd', y, l) == Fwd(nd, y, l) && Wid(nd', y, l) == Wid(nd, y, l))
  }

  /** nd' has the heights of nd and, on level l, differs from it at most at
      nodes a and b. */
  ghost predicate SameExcept(nd: seq<Node>, nd': seq<Node>, l: int, a: int, b: int)
  {
    |nd'| == |nd| &&
    (forall y :: Height(nd', y) == Height(nd, y)) &&
    (forall y :: y != a && y != b ==> Fwd(nd', y, l) == Fwd(nd, y, l) && Wid(nd', y, l) == Wid(nd, y, l))
  }

  // ---------------------------------------------------------------------
  // Updating one link or one width in place

  function SetFwd(nd: seq<Node>, x: int, l: int, v: int): (r: seq<Node>)
    requires 0 <= x < |nd| && 0 <= l < |nd[x].forward|
    ensures |r| == |nd| && r[x].widths == nd[x].widths && r[x].entry == nd[x].entry
    ensures forall y :: 0 <= y < |nd| && y != x ==> r[y] == nd[y]
    ensures forall y :: Height(r, y) == Height(nd, y)
    ensures forall y, l' :: Fwd(r, y, l') == if y == x && l' == l then v else Fwd(nd, y, l')
    ensures forall y, l' :: Wid(r, y, l') == Wid(nd, y, l')
  {
    nd[x := nd[x].(forward := nd[x].forward[l := v])]
  }

  function SetWid(nd: seq<Node>, x: int, l: int, v: u64): (r: seq<Node>)
    requires 0 <= x < |nd| && 0 <= l < |nd[x].widths|
    ensures |r| == |nd| && r[x].forward == nd[x].forward && r[x].entry == nd[x].entry
    ensures forall y :: 0 <= y < |nd| && y != x ==> r[y] == nd[y]
    ensures forall y :: Height(r, y) == Height(nd, y)
    ensures forall y, l' :: Fwd(r, y, l') == Fwd(nd, y, l')
    ensures forall y, l' :: Wid(r, y, l') == if y == x && l' == l then v else Wid(nd, y, l')
  {
    nd[x := nd[x].(widths := nd[x].widths[l := v])]
  }

  // ---------------------------------------------------------------------
  // Basic facts

  /** Distinct ranks hold distinct nodes. */
  lemma AtInjective(nd: seq<Node>, ord: seq<nat>, k1: int, k2: int)
    requires Arena(nd, ord) && 0 <= k1 <= |ord| && 0 <= k2 <= |ord|
    ensures At(ord, k1) == At(ord, k2) <==> k1 == k2
  {
    if k1 > 0 && k2 > 0 && k1 != k2 {
      if k1 < k2 { assert ord[k1 - 1] != ord[k2 - 1]; } else { assert ord[k2 - 1] != ord[k1 - 1]; }
    }
  }

  /** A level on which nothing but the head stands is right when the head's
      link there is NIL with width 0. */
  lemma EmptyLevel(nd: seq<Node>, ord: seq<nat>, l: int)
    requires forall j :: 1 <= j <= |ord| ==> Ht(nd, ord, j) <= l
    requires Fwd(nd, 0, l) == NIL && Wid(nd, 0, l) == 0
    ensures Linked(nd, ord, l)
  {
    forall k | 0 <= k <= |ord| && Ht(nd, ord, k) > l ensures LinkOK(nd, ord, k, l) {
      assert k == 0;
    }
  }

  /** Changing nothing on level l keeps that level right. */
  lemma LinkedFrame(nd: seq<Node>, nd': seq<Node>, ord: seq<nat>, l: int)
    requires SameOn(nd, nd', l) && Linked(nd, ord, l)
    ensures Linked(nd', ord, l)
  {
    forall k | 0 <= k <= |ord| && Ht(nd', ord, k) > l ensures LinkOK(nd', ord, k, l) {
      assert LinkOK(nd, ord, k, l);
      assert forall j :: Ht(nd', ord, j) == Ht(nd, ord, j);
    }
  }

  /** The arena's shape depends on the heights, the entries and the
      number of widths only. */
  lemma ArenaFrame(nd: seq<Node>, nd': seq<Node>, ord: seq<nat>)
    requires Arena(nd, ord) && |nd'| == |nd| && forall y :: Height(nd', y) == Height(nd, y)
    requires forall y :: 0 <= y < |nd| ==> nd'[y].entry == nd[y].entry && |nd'[y].widths| == |nd[y].widths|
    ensures Arena(nd', ord)
  {
    forall x | 0 <= x < |nd'| ensures |nd'[x].forward| == |nd'[x].widths| {
      assert Height(nd', x) == Height(nd, x);
    }
    forall i | 0 <= i < |ord| ensures |nd'[ord[i]].forward| >= 1 {
      assert Height(nd', ord[i]) == Height(nd, ord[i]);
    }
  }

  /** Agreement on a level is transitive. */
  lemma SameOnTrans(a: seq<Node>, b: seq<Node>, c: seq<Node>, l: int)
    requires SameOn(a, b, l) && SameOn(b, c, l)
    ensures SameOn(a, c, l)
  {
  }

  /** The trail depends only on the heights. */
  lemma TrailFrame(nd: seq<Node>, nd': seq<Node>, ord: seq<nat>, l: int, k: int, c: int)
    requires forall y :: Height(nd', y) == Height(nd, y)
    requires Trail(nd, ord, l, k, c)
    ensures Trail(nd', ord, l, k, c)
  {
    assert forall j :: Ht(nd', ord, j) == Ht(nd, ord, j);
  }

  /** With no tower taller than l in ranks (k, c], a link from rank k on
      level l reaches past c, and a tower before k has its successor at or
      before k. */
  lemma BeforeTrail(nd: seq<Node>, ord: seq<nat>, l: int, k: int, c: int, k2: int)
    requires Arena(nd, ord) && Linked(nd, ord, l) && Trail(nd, ord, l, k, c)
    requires 0 <= k2 <= c && k2 != k && Ht(nd, ord, k2) > l
    ensures k2 < k && Wid(nd, At(ord, k2), l) > 0 && k2 + Wid(nd, At(ord, k2), l) <= k
  {
    assert LinkOK(nd, ord, k2, l);
    assert k2 < k;
    assert Ht(nd, ord, k) > l;
  }

  /** Every listed node stands at least one level tall, so the trail of
      level 0 is the cut itself. */
  lemma {:induction false} TrailBottom(nd: seq<Node>, ord: seq<nat>, k: int, c: int)
    requires Placed(nd, ord) && Trail(nd, ord, 0, k, c)
    ensures k == c
  {
    assert k < c ==> Ht(nd, ord, k + 1) <= 0 && Ht(nd, ord, k + 1) >= 1;
  }

  /** On a level no listed tower reaches, the trail is the head. */
  lemma TrailTop(nd: seq<Node>, ord: seq<nat>, l: int, k: int, c: int)
    requires Trail(nd, ord, l, k, c)
    requires forall i :: 0 <= i < |ord| ==> Height(nd, ord[i]) <= l
    ensures k == 0
  {
    assert k > 0 ==> Height(nd, ord[k - 1]) <= l;
  }

  /** The trail's own link on level l reaches past the cut. */
  lemma TrailLink(nd: seq<Node>, ord: seq<nat>, l: int, k: int, c: int)
    requires Linked(nd, ord, l) && Trail(nd, ord, l, k, c) && Ht(nd, ord, k) > l
    ensures Wid(nd, At(ord, k), l) > 0 ==> k + Wid(nd, At(ord, k), l) > c
    ensures LinkOK(nd, ord, k, l)
  {
    assert LinkOK(nd, ord, k, l);
  }

  /** A link whose span lies in a stretch of ranks that two orders share is
      right in the second order when it is right in the first. */
  lemma LinkPrefix(nd: seq<Node>, nd': seq<Node>, ord: seq<nat>, o: seq<nat>, k: int, b: int, l: int)
    requires 0 <= k <= b <= |ord| && b <= |o| && o[..b] == ord[..b]
    requires forall y :: Height(nd', y) == Height(nd, y)
    requires Fwd(nd', At(ord, k), l) == Fwd(nd, At(ord, k), l) && Wid(nd', At(ord, k), l) == Wid(nd, At(ord, k), l)
    requires LinkOK(nd, ord, k, l) && Wid(nd, At(ord, k), l) > 0 && k + Wid(nd, At(ord, k), l) <= b
    ensures LinkOK(nd', o, k, l)
  {
    assert forall j :: 0 <= j <= b ==> At(o, j) == At(ord, j) by {
      forall j | 1 <= j <= b ensures At(o, j) == At(ord, j) {
        assert o[..b][j - 1] == ord[..b][j - 1];
      }
    }
    assert forall j :: 0 <= j <= b ==> Ht(nd', o, j) == Ht(nd, ord, j);
  }

  /** A link is right after the ranks from it onwards move by a fixed offset. */
  lemma LinkShift(nd: seq<Node>, nd': seq<Node>, ord: seq<nat>, o: seq<nat>, k: int, k2: int, l: int)
    requires 0 <= k <= |ord| && 0 <= k2 <= |o| && |o| - k2 == |ord| - k
    requires o[k2..] == ord[k..]
    requires forall y :: Height(nd', y) == Height(nd, y)
    requires Fwd(nd', At(o, k2), l) == Fwd(nd, At(ord, k), l) && Wid(nd', At(o, k2), l) == Wid(nd, At(ord, k), l)
    requires LinkOK(nd, ord, k, l)
    ensures LinkOK(nd', o, k2, l)
  {
    assert forall j :: k < j <= |ord| ==> At(o, j - k + k2) == At(ord, j) by {
      forall j | k < j <= |ord| ensures At(o, j - k + k2) == At(ord, j) {
        assert o[k2..][j - k - 1] == ord[k..][j - k - 1];
      }
    }
    assert forall j :: k < j <= |ord| ==> Ht(nd', o, j - k + k2) == Ht(nd, ord, j);
    assert forall j :: k2 < j <= |o| ==> Ht(nd', o, j) == Ht(nd, ord, j - k2 + k) by {
      forall j | k2 < j <= |o| ensures Ht(nd', o, j) == Ht(nd, ord, j - k2 + k) {
        assert Ht(nd', o, (j - k2 + k) - k + k2) == Ht(nd, ord, j - k2 + k);
      }
    }
  }

  /** During a walk down the levels: rank t, the head or a tower taller
      than l, lies at or before the walk's rank k, and nothing taller than
      l stands after it before the barrier b the walk cannot pass. */
  ghost predicate TrailTo(nd: seq<Node>, ord: seq<nat>, l: int, t: int, k: int, b: int)
  {
    0 <= t <= k && (t == 0 || Ht(nd, ord, t) > l) && forall j :: t < j < b ==> Ht(nd, ord, j) <= l
  }

  /** The walk moving on and the barrier moving closer keep a trail. */
  lemma TrailToNarrow(nd: seq<Node>, ord: seq<nat>, l: int, t: int, k: int, b: int, k2: int, b2: int)
    requires TrailTo(nd, ord, l, t, k, b) && k <= k2 && b2 <= b
    ensures TrailTo(nd, ord, l, t, k2, b2)
  {
  }

  /** When the walk ends right before its barrier, or at the end, the
      trail is the update trail for the walk's final rank. */
  lemma TrailToDone(nd: seq<Node>, ord: seq<nat>, l: int, t: int, c: int, b: int)
    requires TrailTo(nd, ord, l, t, c, b) && c <= |ord|
    requires b == c + 1 || (c == |ord| && b == |ord| + 1)
    ensures Trail(nd, ord, l, t, c)
  {
  }

  /** A walk that has passed every level stands right before its barrier:
      its level-0 link is the next rank's node, or NIL at the end. */
  lemma WalkEnd(nd: seq<Node>, ord: seq<nat>, k: int, b: int)
    requires Placed(nd, ord) && Linked(nd, ord, 0)
    requires 0 <= k < b <= |ord| + 1
    requires forall j :: k < j < b ==> Ht(nd, ord, j) <= 0
    requires Ht(nd, ord, k) > 0
    ensures b == k + 1 || k == |ord|
    ensures Fwd(nd, At(ord, k), 0) == if k < |ord| then ord[k] else NIL
  {
    assert k < |ord| ==> Ht(nd, ord, k + 1) >= 1;
    assert LinkOK(nd, ord, k, 0);
  }

  // ---------------------------------------------------------------------
  // Changes outside the links: a node appended, an entry replaced

  /** Appending a node that nothing links to changes no level, no trail
      and no entry. */
  lemma AppendNode(nd: seq<Node>, ord: seq<nat>, z: Node)
    requires Placed(nd, ord) && |z.forward| == |z.widths|
    ensures Placed(nd + [z], ord)
    ensures Arena(nd, ord) ==> Arena(nd + [z], ord)
    ensures forall j :: Ht(nd + [z], ord, j) == Ht(nd, ord, j)
    ensures forall x, l :: 0 <= x < |nd| ==> Fwd(nd + [z], x, l) == Fwd(nd, x, l) && Wid(nd + [z], x, l) == Wid(nd, x, l)
    ensures forall l :: Linked(nd, ord, l) ==> Linked(nd + [z], ord, l)
    ensures Contents(nd + [z], ord) == Contents(nd, ord)
  {
    var nd' := nd + [z];
    assert forall x :: 0 <= x < |nd| ==> nd'[x] == nd[x];
    assert forall j :: At(ord, j) < |nd|;
    assert forall j :: Ht(nd', ord, j) == Ht(nd, ord, j);
    forall l | Linked(nd, ord, l) ensures Linked(nd', ord, l) {
      forall k | 0 <= k <= |ord| && Ht(nd', ord, k) > l ensures LinkOK(nd', ord, k, l) {
        assert LinkOK(nd, ord, k, l);
        var x := At(ord, k);
        assert Fwd(nd', x, l) == Fwd(nd, x, l) && Wid(nd', x, l) == Wid(nd, x, l);
      }
    }
  }

  /** nd with node x holding entry e. */
  function SetEntry(nd: seq<Node>, x: int, e: Entry): (r: seq<Node>)
    ensures |r| == |nd|
    ensures forall y :: 0 <= y < |nd| ==> r[y] == if y == x then nd[y].(entry := Some(e)) else nd[y]
  {
    if 0 <= x < |nd| then nd[x := nd[x].(entry := Some(e))] else nd
  }

  /** Replacing an entry keeps every level; in the entries, only the rank
      holding x changes. */
  lemma EntryFrame(nd: seq<Node>, ord: seq<nat>, x: int, e: Entry)
    requires Arena(nd, ord)
    ensures Arena(SetEntry(nd, x, e), ord)
    ensures forall l :: SameOn(nd, SetEntry(nd, x, e), l)
    ensures forall i :: 0 <= i < |ord| ==>
              Contents(SetEntry(nd, x, e), ord)[i] == if ord[i] == x then e else Contents(nd, ord)[i]
  {
  }

  // ---------------------------------------------------------------------
  // Insertion of node m at rank c + 1

  /** The order after inserting node m at rank c + 1. */
  function Ins(ord: seq<nat>, c: nat, m: nat): (r: seq<nat>)
    requires c <= |ord|
    ensures |r| == |ord| + 1 && r[..c] == ord[..c] && r[c + 1..] == ord[c..] && At(r, c + 1) == m
  {
    ord[..c] + [m] + ord[c..]
  }

  /** The entries after inserting node m, holding e, at rank c + 1. */
  lemma ContentsIns(nd: seq<Node>, nd': seq<Node>, ord: seq<nat>, c: nat, m: nat, e: Entry)
    requires c <= |ord| && m < |nd'| && nd'[m].entry == Some(e)
    requires forall i :: 0 <= i < |ord| ==> EntryOf(nd', ord[i]) == EntryOf(nd, ord[i])
    ensures Contents(nd', Ins(ord, c, m)) == Contents(nd, ord)[..c] + [e] + Contents(nd, ord)[c..]
  {
    var o := Ins(ord, c, m);
    var s := Contents(nd, ord);
    forall i | 0 <= i < |o| ensures Contents(nd', o)[i] == (s[..c] + [e] + s[c..])[i] {
      if i < c {
        assert o[i] == o[..c][i] == ord[i];
      } else if i > c {
        assert o[i] == o[c + 1..][i - c - 1] == ord[i - 1];
      }
    }
  }

  /** Inserting a tower keeps the arena's shape. */
  lemma InsArena(nd: seq<Node>, ord: seq<nat>, c: nat, m: nat)
    requires Arena(nd, ord) && c <= |ord|
    requires 1 <= m < |nd| && m !in ord && nd[m].entry.Some? && |nd[m].forward| >= 1
    ensures Arena(nd, Ins(ord, c, m))
  {
    var r := Ins(ord, c, m);
    assert forall i :: 0 <= i < |r| ==> r[i] == if i < c then ord[i] else if i == c then m else ord[i - 1];
  }

  /** The trail node on a level below the new tower's top now reaches the
      new tower, c + 1 - k ranks on. */
  lemma SpliceTrailCase(nd: seq<Node>, nd': seq<Node>, ord: seq<nat>, o: seq<nat>, c: nat, m: nat, l: nat, k: nat)
    requires c <= |ord| && o == Ins(ord, c, m)
    requires Trail(nd, ord, l, k, c) && Height(nd, m) > l
    requires forall y :: Height(nd', y) == Height(nd, y)
    requires Fwd(nd', At(o, k), l) == m && Wid(nd', At(o, k), l) == c + 1 - k
    ensures LinkOK(nd', o, k, l)
  {
    assert forall j :: 1 <= j <= c ==> At(o, j) == At(ord, j) by {
      forall j | 1 <= j <= c ensures At(o, j) == At(ord, j) { assert o[..c][j - 1] == ord[..c][j - 1]; }
    }
    assert forall j :: k < j <= c ==> Ht(nd', o, j) == Ht(nd, ord, j);
  }

  /** The new tower takes over the trail's former link on its levels. */
  lemma SpliceNewCase(nd: seq<Node>, nd': seq<Node>, ord: seq<nat>, o: seq<nat>, c: nat, m: nat, l: nat, k: nat)
    requires c <= |ord| && o == Ins(ord, c, m)
    requires Trail(nd, ord, l, k, c) && LinkOK(nd, ord, k, l)
    requires forall y :: Height(nd', y) == Height(nd, y)
    requires Fwd(nd', m, l) == Fwd(nd, At(ord, k), l)
    requires Wid(nd', m, l) == if Wid(nd, At(ord, k), l) == 0 then 0 else k + Wid(nd, At(ord, k), l) - c
    ensures LinkOK(nd', o, c + 1, l)
  {
    var w := Wid(nd, At(ord, k), l);
    assert forall j :: c < j <= |ord| ==> At(o, j + 1) == At(ord, j) by {
      forall j | c < j <= |ord| ensures At(o, j + 1) == At(ord, j) { assert o[c + 1..][j - c - 1] == ord[c..][j - c - 1]; }
    }
    assert forall j :: c < j <= |ord| ==> Ht(nd', o, j + 1) == Ht(nd, ord, j);
    assert forall j :: c + 1 < j <= |o| ==> Ht(nd', o, j) == Ht(nd, ord, j - 1) by {
      forall j | c + 1 < j <= |o| ensures Ht(nd', o, j) == Ht(nd, ord, j - 1) {
        assert Ht(nd', o, (j - 1) + 1) == Ht(nd, ord, j - 1);
      }
    }
    if w != 0 {
      assert k + w > c;
    }
  }

  /** On a level at or above the new tower's top, the trail's link grows by
      one when it passes over the new rank. */
  lemma BumpTrailCase(nd: seq<Node>, nd': seq<Node>, ord: seq<nat>, o: seq<nat>, c: nat, m: nat, l: nat, k: nat)
    requires c <= |ord| && o == Ins(ord, c, m)
    requires Trail(nd, ord, l, k, c) && LinkOK(nd, ord, k, l) && Height(nd, m) <= l
    requires forall y :: Height(nd', y) == Height(nd, y)
    requires Fwd(nd', At(o, k), l) == Fwd(nd, At(ord, k), l)
    requires Wid(nd', At(o, k), l) ==
               if Fwd(nd, At(ord, k), l) == NIL then Wid(nd, At(ord, k), l) else Wid(nd, At(ord, k), l) + 1
    ensures LinkOK(nd', o, k, l)
  {
    var w := Wid(nd, At(ord, k), l);
    assert forall j :: 1 <= j <= c ==> At(o, j) == At(ord, j) by {
      forall j | 1 <= j <= c ensures At(o, j) == At(ord, j) { assert o[..c][j - 1] == ord[..c][j - 1]; }
    }
    assert forall j :: c < j <= |ord| ==> At(o, j + 1) == At(ord, j) by {
      forall j | c < j <= |ord| ensures At(o, j + 1) == At(ord, j) { assert o[c + 1..][j - c - 1] == ord[c..][j - c - 1]; }
    }
    assert At(o, c + 1) == m;
    if w == 0 {
      forall j | k < j <= |o| ensures Ht(nd', o, j) <= l {
        if j > c + 1 {
          assert At(o, (j - 1) + 1) == At(ord, j - 1);
          assert Ht(nd, ord, j - 1) <= l;
        } else if j <= c {
          assert Ht(nd, ord, j) <= l;
        }
      }
    } else {
      assert k + w > c;
      assert At(o, k + w + 1) == At(ord, k + w);
      forall j | k < j < k + w + 1 ensures Ht(nd', o, j) <= l {
        if j > c + 1 {
          assert At(o, (j - 1) + 1) == At(ord, j - 1);
          assert Ht(nd, ord, j - 1) <= l;
        } else if j <= c {
          assert Ht(nd, ord, j) <= l;
        }
      }
    }
  }

  /** Splicing on level l, below the new tower's top: the trail node at rank
      k now links to m across c + 1 - k ranks, and m takes over the trail's
      former link, shortened by the ranks before the new one. */
  lemma SpliceLevel(nd: seq<Node>, nd': seq<Node>, ord: seq<nat>, c: nat, m: nat, l: nat, k: nat)
    requires Arena(nd, ord) && 1 <= m < |nd| && m !in ord
    requires Linked(nd, ord, l) && Trail(nd, ord, l, k, c) && Ht(nd, ord, k) > l && Height(nd, m) > l
    requires SameExcept(nd, nd', l, At(ord, k), m)
    requires Fwd(nd', m, l) == Fwd(nd, At(ord, k), l)
    requires Wid(nd', m, l) == if Wid(nd, At(ord, k), l) == 0 then 0 else k + Wid(nd, At(ord, k), l) - c
    requires Fwd(nd', At(ord, k), l) == m && Wid(nd', At(ord, k), l) == c + 1 - k
    ensures Linked(nd', Ins(ord, c, m), l)
  {
    var o := Ins(ord, c, m);
    forall k2 | 0 <= k2 <= |o| && Ht(nd', o, k2) > l ensures LinkOK(nd', o, k2, l) {
      if k2 == c + 1 {
        assert LinkOK(nd, ord, k, l);
        SpliceNewCase(nd, nd', ord, o, c, m, l, k);
      } else if k2 <= c {
        SpliceBeforeCase(nd, nd', ord, c, m, l, k, k2);
      } else {
        SpliceAfterCase(nd, nd', ord, c, m, l, k, k2);
      }
    }
  }

  /** A link at a rank before the new one is kept, trail aside. */
  lemma SpliceBeforeCase(nd: seq<Node>, nd': seq<Node>, ord: seq<nat>, c: nat, m: nat, l: nat, k: nat, k2: nat)
    requires Arena(nd, ord) && 1 <= m < |nd| && m !in ord
    requires Linked(nd, ord, l) && Trail(nd, ord, l, k, c) && Ht(nd, ord, k) > l && Height(nd, m) > l
    requires SameExcept(nd, nd', l, At(ord, k), m)
    requires Fwd(nd', m, l) == Fwd(nd, At(ord, k), l)
    requires Wid(nd', m, l) == if Wid(nd, At(ord, k), l) == 0 then 0 else k + Wid(nd, At(ord, k), l) - c
    requires Fwd(nd', At(ord, k), l) == m && Wid(nd', At(ord, k), l) == c + 1 - k
    requires k2 <= c && Ht(nd', Ins(ord, c, m), k2) > l
    ensures LinkOK(nd', Ins(ord, c, m), k2, l)
  {
    var o := Ins(ord, c, m);
    if k2 > 0 { assert o[..c][k2 - 1] == ord[..c][k2 - 1]; }
    assert At(o, k2) == At(ord, k2);
    if k2 == k {
      assert LinkOK(nd, ord, k, l);
      SpliceTrailCase(nd, nd', ord, o, c, m, l, k);
    } else {
      AtInjective(nd, ord, k, k2);
      assert Ht(nd, ord, k2) > l;
      BeforeTrail(nd, ord, l, k, c, k2);
      LinkPrefix(nd, nd', ord, o, k2, c, l);
    }
  }

  /** A link at a rank after the new one moves up one rank, unchanged. */
  lemma SpliceAfterCase(nd: seq<Node>, nd': seq<Node>, ord: seq<nat>, c: nat, m: nat, l: nat, k: nat, k2: nat)
    requires Arena(nd, ord) && 1 <= m < |nd| && m !in ord
    requires Linked(nd, ord, l) && Trail(nd, ord, l, k, c) && Ht(nd, ord, k) > l && Height(nd, m) > l
    requires SameExcept(nd, nd', l, At(ord, k), m)
    requires Fwd(nd', m, l) == Fwd(nd, At(ord, k), l)
    requires Wid(nd', m, l) == if Wid(nd, At(ord, k), l) == 0 then 0 else k + Wid(nd, At(ord, k), l) - c
    requires Fwd(nd', At(ord, k), l) == m && Wid(nd', At(ord, k), l) == c + 1 - k
    requires c + 1 < k2 <= |ord| + 1 && Ht(nd', Ins(ord, c, m), k2) > l
    ensures LinkOK(nd', Ins(ord, c, m), k2, l)
  {
    var o := Ins(ord, c, m);
    assert o[c + 1..][k2 - c - 2] == ord[c..][k2 - c - 2];
    assert At(o, k2) == At(ord, k2 - 1);
    AtInjective(nd, ord, k, k2 - 1);
    assert Ht(nd, ord, k2 - 1) > l;
    assert o[k2..] == ord[k2 - 1..] by {
      assert o[k2..] == o[c + 1..][k2 - c - 1..];
      assert ord[k2 - 1..] == ord[c..][k2 - c - 1..];
    }
    LinkShift(nd, nd', ord, o, k2 - 1, k2, l);
  }

  /** Bumping on level l, at or above the new tower's top: a trail link that
      passes over the new rank grows by one. */
  lemma BumpLevel(nd: seq<Node>, nd': seq<Node>, ord: seq<nat>, c: nat, m: nat, l: nat, k: nat)
    requires Arena(nd, ord) && 1 <= m < |nd| && m !in ord
    requires Linked(nd, ord, l) && Trail(nd, ord, l, k, c) && Ht(nd, ord, k) > l && Height(nd, m) <= l
    requires SameExcept(nd, nd', l, At(ord, k), At(ord, k))
    requires Fwd(nd', At(ord, k), l) == Fwd(nd, At(ord, k), l)
    requires Wid(nd', At(ord, k), l) ==
               if Fwd(nd, At(ord, k), l) == NIL then Wid(nd, At(ord, k), l) else Wid(nd, At(ord, k), l) + 1
    ensures Linked(nd', Ins(ord, c, m), l)
  {
    var o := Ins(ord, c, m);
    assert LinkOK(nd, ord, k, l);
    forall k2 | 0 <= k2 <= |o| && Ht(nd', o, k2) > l ensures LinkOK(nd', o, k2, l) {
      if k2 == c + 1 {
      } else if k2 <= c {
        if k2 > 0 { assert o[..c][k2 - 1] == ord[..c][k2 - 1]; }
        assert At(o, k2) == At(ord, k2);
        if k2 == k {
          BumpTrailCase(nd, nd', ord, o, c, m, l, k);
        } else {
          AtInjective(nd, ord, k, k2);
          assert Ht(nd, ord, k2) > l;
          BeforeTrail(nd, ord, l, k, c, k2);
          LinkPrefix(nd, nd', ord, o, k2, c, l);
        }
      } else {
        assert o[c + 1..][k2 - c - 2] == ord[c..][k2 - c - 2];
        assert At(o, k2) == At(ord, k2 - 1);
        AtInjective(nd, ord, k, k2 - 1);
        assert Ht(nd, ord, k2 - 1) > l;
        assert o[k2..] == ord[k2 - 1..] by {
          assert o[k2..] == o[c + 1..][k2 - c - 1..];
          assert ord[k2 - 1..] == ord[c..][k2 - c - 1..];
        }
        LinkShift(nd, nd', ord, o, k2 - 1, k2, l);
      }
    }
  }

  // ---------------------------------------------------------------------
  // Removal of the node at rank c + 1

  /** The order after removing the node at rank c + 1. */
  function Del(ord: seq<nat>, c: nat): (r: seq<nat>)
    requires c < |ord|
    ensures |r| == |ord| - 1 && r[..c] == ord[..c] && r[c..] == ord[c + 1..]
  {
    ord[..c] + ord[c + 1..]
  }

  /** A level whose head link is NIL holds no listed tower above it. */
  lemma HeadNil(nd: seq<Node>, ord: seq<nat>, l: nat)
    requires Linked(nd, ord, l) && Fwd(nd, 0, l) == NIL && Height(nd, 0) > l
    ensures Wid(nd, 0, l) == 0
    ensures forall j :: 0 < j <= |ord| ==> Ht(nd, ord, j) <= l
  {
    assert LinkOK(nd, ord, 0, l);
  }

  /** On a right level, the head's link is set exactly when some listed
      tower rises above the level. */
  lemma HeadLink(nd: seq<Node>, ord: seq<nat>, l: nat)
    requires Linked(nd, ord, l) && Height(nd, 0) > l
    ensures Fwd(nd, 0, l) != NIL <==> exists y :: y in ord && Height(nd, y) > l
  {
    if Fwd(nd, 0, l) == NIL {
      HeadNil(nd, ord, l);
      forall y | y in ord ensures Height(nd, y) <= l {
        var i :| 0 <= i < |ord| && ord[i] == y;
        assert Ht(nd, ord, i + 1) <= l;
      }
    } else if forall y :: y in ord ==> Height(nd, y) <= l {
      forall j | 0 < j <= |ord| ensures Ht(nd, ord, j) <= l {
        assert ord[j - 1] in ord;
      }
      HeadNilBack(nd, ord, l);
    }
  }

  /** A level no listed tower rises above has a NIL head link of width 0. */
  lemma HeadNilBack(nd: seq<Node>, ord: seq<nat>, l: nat)
    requires Linked(nd, ord, l) && Height(nd, 0) > l
    requires forall j :: 0 < j <= |ord| ==> Ht(nd, ord, j) <= l
    ensures Fwd(nd, 0, l) == NIL && Wid(nd, 0, l) == 0
  {
    assert LinkOK(nd, ord, 0, l);
  }

  /** After removing the tower at rank c + 1, a level whose head link is
      NIL had its trail for cut c at the head. */
  lemma DelTrailHead(nd: seq<Node>, nd': seq<Node>, ord: seq<nat>, c: nat, l: nat, k: int)
    requires c < |ord| && Trail(nd, ord, l, k, c) && forall y :: Height(nd', y) == Height(nd, y)
    requires Linked(nd', Del(ord, c), l) && Fwd(nd', 0, l) == NIL && Height(nd', 0) > l
    ensures k == 0
  {
    var o := Del(ord, c);
    HeadNil(nd', o, l);
    assert k > 0 ==> o[..c][k - 1] == ord[..c][k - 1] && Ht(nd', o, k) == Ht(nd, ord, k);
  }

  /** The entries after removing the tower at rank c + 1. */
  lemma ContentsDel(nd: seq<Node>, nd': seq<Node>, ord: seq<nat>, c: nat)
    requires c < |ord|
    requires forall i :: 0 <= i < |ord| ==> EntryOf(nd', ord[i]) == EntryOf(nd, ord[i])
    ensures Contents(nd', Del(ord, c)) == Contents(nd, ord)[..c] + Contents(nd, ord)[c + 1..]
  {
    var o := Del(ord, c);
    var s := Contents(nd, ord);
    forall i | 0 <= i < |o| ensures Contents(nd', o)[i] == (s[..c] + s[c + 1..])[i] {
      if i < c {
        assert o[i] == o[..c][i] == ord[i];
      } else {
        assert o[i] == o[c..][i - c] == ord[i + 1];
      }
    }
  }

  /** Removing a tower keeps the arena's shape. */
  lemma DelArena(nd: seq<Node>, ord: seq<nat>, c: nat)
    requires Arena(nd, ord) && c < |ord|
    ensures Arena(nd, Del(ord, c))
  {
    var r := Del(ord, c);
    assert forall i :: 0 <= i < |r| ==> r[i] == if i < c then ord[i] else ord[i + 1];
  }

  /** The trail link's update when the tower at rank c + 1 (node n) is
      removed: a link to n takes over n's own link (and ends the level when
      n ended it), any other link shrinks by one unless it ends the level. */
  ghost predicate Unlinked(nd: seq<Node>, nd': seq<Node>, x: int, n: int, l: int)
  {
    if Fwd(nd, x, l) == n then
      Fwd(nd', x, l) == Fwd(nd, n, l) &&
      Wid(nd', x, l) == (if Wid(nd, n, l) == 0 then 0 else Wid(nd, x, l) + Wid(nd, n, l) - 1)
    else
      Fwd(nd', x, l) == Fwd(nd, x, l) &&
      Wid(nd', x, l) == (if Fwd(nd, x, l) == NIL then Wid(nd, x, l) else Wid(nd, x, l) - 1)
  }

  /** The trail's link to the removed tower is replaced by that tower's link. */
  lemma UnlinkToRemovedCase(nd: seq<Node>, nd': seq<Node>, ord: seq<nat>, o: seq<nat>, c: nat, l: nat, k: nat)
    requires c < |ord| && o == Del(ord, c)
    requires Trail(nd, ord, l, k, c) && LinkOK(nd, ord, k, l) && LinkOK(nd, ord, c + 1, l)
    requires k + Wid(nd, At(ord, k), l) == c + 1 && Wid(nd, At(ord, k), l) > 0
    requires forall y :: Height(nd', y) == Height(nd, y)
    requires Fwd(nd', At(o, k), l) == Fwd(nd, At(ord, c + 1), l)
    requires var wn := Wid(nd, At(ord, c + 1), l);
             Wid(nd', At(o, k), l) == (if wn == 0 then 0 else Wid(nd, At(ord, k), l) + wn - 1)
    ensures LinkOK(nd', o, k, l)
  {
    var x, n := At(ord, k), At(ord, c + 1);
    var wn := Wid(nd, n, l);
    DelAt(ord, c);
    assert At(o, k) == x;
    assert forall j :: k < j <= c ==> Ht(nd, ord, j) <= l;
    if wn == 0 {
      assert forall j :: c + 1 < j <= |ord| ==> Ht(nd, ord, j) <= l;
      forall j | k < j <= |o| ensures Ht(nd', o, j) <= l {
        if j > c {
          assert Ht(nd', o, j) == Ht(nd, ord, j + 1);
        } else {
          assert Ht(nd', o, j) == Ht(nd, ord, j);
        }
      }
    } else {
      assert c + 1 + wn <= |ord| && Fwd(nd, n, l) == At(ord, c + 1 + wn) && Ht(nd, ord, c + 1 + wn) > l;
      assert forall j :: c + 1 < j < c + 1 + wn ==> Ht(nd, ord, j) <= l;
      assert At(o, c + wn) == At(ord, c + 1 + wn);
      forall j | k < j < c + wn ensures Ht(nd', o, j) <= l {
        if j > c {
          assert Ht(nd', o, j) == Ht(nd, ord, j + 1);
        } else {
          assert Ht(nd', o, j) == Ht(nd, ord, j);
        }
      }
    }
  }


  /** Ranks after deleting rank c + 1: those up to c are kept and those
      after it move down by one. */
  lemma DelAt(ord: seq<nat>, c: nat)
    requires c < |ord|
    ensures forall j :: 1 <= j <= c ==> At(Del(ord, c), j) == At(ord, j)
    ensures forall j :: c < j <= |ord| - 1 ==> At(Del(ord, c), j) == At(ord, j + 1)
  {
    var o := Del(ord, c);
    forall j | 1 <= j <= c ensures At(o, j) == At(ord, j) { assert o[..c][j - 1] == ord[..c][j - 1]; }
    forall j | c < j <= |o| ensures At(o, j) == At(ord, j + 1) { assert o[c..][j - c - 1] == ord[c + 1..][j - c - 1]; }
  }

  /** A trail link that does not lead to the removed tower shrinks by one
      unless it ends the level. */
  lemma UnlinkOverCase(nd: seq<Node>, nd': seq<Node>, ord: seq<nat>, o: seq<nat>, c: nat, l: nat, k: nat)
    requires c < |ord| && o == Del(ord, c)
    requires Trail(nd, ord, l, k, c) && LinkOK(nd, ord, k, l)
    requires Fwd(nd, At(ord, k), l) != At(ord, c + 1)
    requires k + Wid(nd, At(ord, k), l) != c + 1
    requires forall y :: Height(nd', y) == Height(nd, y)
    requires Fwd(nd', At(o, k), l) == Fwd(nd, At(ord, k), l)
    requires Wid(nd', At(o, k), l) ==
               if Fwd(nd, At(ord, k), l) == NIL then Wid(nd, At(ord, k), l) else Wid(nd, At(ord, k), l) - 1
    ensures LinkOK(nd', o, k, l)
  {
    var w := Wid(nd, At(ord, k), l);
    DelAt(ord, c);
    if w == 0 {
      forall j | k < j <= |o| ensures Ht(nd', o, j) <= l {
        if j > c {
          assert At(o, j) == At(ord, j + 1);
          assert Ht(nd, ord, j + 1) <= l;
        } else {
          assert At(o, j) == At(ord, j);
          assert Ht(nd, ord, j) <= l;
        }
      }
    } else {
      assert k + w > c + 1;
      assert At(o, k + w - 1) == At(ord, k + w);
      forall j | k < j < k + w - 1 ensures Ht(nd', o, j) <= l {
        if j > c {
          assert At(o, j) == At(ord, j + 1);
          assert Ht(nd, ord, j + 1) <= l;
        } else {
          assert At(o, j) == At(ord, j);
          assert Ht(nd, ord, j) <= l;
        }
      }
    }
  }

  /** Unlinking on level l: the trail link is updated as Unlinked says,
      and every other link on the level is kept. */
  lemma UnlinkLevel(nd: seq<Node>, nd': seq<Node>, ord: seq<nat>, c: nat, l: nat, k: nat)
    requires Arena(nd, ord) && c < |ord|
    requires Linked(nd, ord, l) && Trail(nd, ord, l, k, c) && Ht(nd, ord, k) > l
    requires SameExcept(nd, nd', l, At(ord, k), At(ord, k))
    requires Unlinked(nd, nd', At(ord, k), At(ord, c + 1), l)
    ensures Linked(nd', Del(ord, c), l)
  {
    var o := Del(ord, c);
    assert LinkOK(nd, ord, k, l);
    forall k2 | 0 <= k2 <= |o| && Ht(nd', o, k2) > l ensures LinkOK(nd', o, k2, l) {
      if k2 <= c {
        if k2 > 0 { assert o[..c][k2 - 1] == ord[..c][k2 - 1]; }
        assert At(o, k2) == At(ord, k2);
        if k2 == k {
          var w := Wid(nd, At(ord, k), l);
          if Fwd(nd, At(ord, k), l) == At(ord, c + 1) {
            assert w > 0;
            AtInjective(nd, ord, k + w, c + 1);
            assert LinkOK(nd, ord, c + 1, l);
            UnlinkToRemovedCase(nd, nd', ord, o, c, l, k);
          } else {
            if w > 0 {
              AtInjective(nd, ord, k + w, c + 1);
            }
            UnlinkOverCase(nd, nd', ord, o, c, l, k);
          }
        } else {
          AtInjective(nd, ord, k, k2);
          assert Ht(nd, ord, k2) > l;
          BeforeTrail(nd, ord, l, k, c, k2);
          LinkPrefix(nd, nd', ord, o, k2, c, l);
        }
      } else {
        assert o[c..][k2 - c - 1] == ord[c + 1..][k2 - c - 1];
        assert At(o, k2) == At(ord, k2 + 1);
        AtInjective(nd, ord, k, k2 + 1);
        assert Ht(nd, ord, k2 + 1) > l;
        assert o[k2..] == ord[k2 + 1..] by {
          assert o[k2..] == o[c..][k2 - c..];
          assert ord[k2 + 1..] == ord[c + 1..][k2 - c..];
        }
        LinkShift(nd, nd', ord, o, k2 + 1, k2, l);
      }
    }
  }

  // ---------------------------------------------------------------------
  // Cutting at rank c

  /** Cutting level l for the left part: the trail node ends the level. */
  lemma CutLeftLevel(nd: seq<Node>, nd': seq<Node>, ord: seq<nat>, c: nat, l: nat, k: nat)
    requires Arena(nd, ord)
    requires Linked(nd, ord, l) && Trail(nd, ord, l, k, c) && Ht(nd, ord, k) > l
    requires SameExcept(nd, nd', l, At(ord, k), At(ord, k))
    requires Fwd(nd', At(ord, k), l) == NIL && Wid(nd', At(ord, k), l) == 0
    ensures Linked(nd', ord[..c], l)
  {
    var o := ord[..c];
    assert forall j :: 0 <= j <= c ==> At(o, j) == At(ord, j);
    assert forall j :: 0 <= j <= c ==> Ht(nd', o, j) == Ht(nd, ord, j);
    forall k2 | 0 <= k2 <= |o| && Ht(nd', o, k2) > l ensures LinkOK(nd', o, k2, l) {
      if k2 != k {
        AtInjective(nd, ord, k, k2);
        assert Ht(nd, ord, k2) > l;
        BeforeTrail(nd, ord, l, k, c, k2);
        assert o[..c] == ord[..c];
        LinkPrefix(nd, nd', ord, o, k2, c, l);
      }
    }
  }

  /** The new right head's link on level l, taken over from the trail. */
  lemma CutHeadCase(nd: seq<Node>, rd: seq<Node>, ord: seq<nat>, c: nat, l: nat, k: nat)
    requires Trail(nd, ord, l, k, c) && LinkOK(nd, ord, k, l)
    requires forall y :: Height(rd, y) == Height(nd, y)
    requires Fwd(rd, 0, l) == Fwd(nd, At(ord, k), l)
    requires Wid(rd, 0, l) == if Wid(nd, At(ord, k), l) != 0 then Wid(nd, At(ord, k), l) - (c - k) else 0
    ensures LinkOK(rd, ord[c..], 0, l)
  {
    var o := ord[c..];
    var w := Wid(nd, At(ord, k), l);
    assert forall j :: 1 <= j <= |o| ==> At(o, j) == At(ord, j + c);
    assert forall j :: 1 <= j <= |o| ==> Ht(rd, o, j) == Ht(nd, ord, j + c);
    if w != 0 {
      assert k + w > c;
    }
  }

  /** Cutting level l for the right part: the new head takes over the
      trail's link, shortened by the ranks left behind. */
  lemma CutRightLevel(nd: seq<Node>, rd: seq<Node>, ord: seq<nat>, c: nat, l: nat, k: nat)
    requires Arena(nd, ord)
    requires Linked(nd, ord, l) && Trail(nd, ord, l, k, c) && Ht(nd, ord, k) > l
    requires SameExcept(nd, rd, l, 0, 0)
    requires Fwd(rd, 0, l) == Fwd(nd, At(ord, k), l)
    requires Wid(rd, 0, l) == if Wid(nd, At(ord, k), l) != 0 then Wid(nd, At(ord, k), l) - (c - k) else 0
    ensures Linked(rd, ord[c..], l)
  {
    var o := ord[c..];
    assert LinkOK(nd, ord, k, l);
    forall k2 | 0 <= k2 <= |o| && Ht(rd, o, k2) > l ensures LinkOK(rd, o, k2, l) {
      if k2 == 0 {
        CutHeadCase(nd, rd, ord, c, l, k);
      } else {
        assert At(o, k2) == At(ord, k2 + c);
        assert At(ord, k2 + c) != 0;
        assert Ht(nd, ord, k2 + c) > l;
        assert o[k2..] == ord[k2 + c..];
        LinkShift(nd, rd, ord, o, k2 + c, k2, l);
      }
    }
  }
  /** The two parts of a cut at rank c keep the arena's shape and the
      entries on their side: the left keeps every node, the right every
      node but the head. */
  lemma CutArena(nd: seq<Node>, nd': seq<Node>, rd: seq<Node>, ord: seq<nat>, c: nat)
    requires Arena(nd, ord) && c <= |ord|
    requires |nd'| == |nd| && forall y :: Height(nd', y) == Height(nd, y)
    requires forall y :: 0 <= y < |nd| ==> nd'[y].entry == nd[y].entry && |nd'[y].widths| == |nd[y].widths|
    requires |rd| == |nd| && (forall y :: Height(rd, y) == Height(nd, y)) && |rd[0].widths| == Height(nd, 0)
    requires forall y :: 1 <= y < |nd| ==> rd[y].entry == nd[y].entry && |rd[y].widths| == |nd[y].widths|
    ensures Arena(nd', ord[..c]) && Arena(rd, ord[c..])
    ensures Contents(nd', ord[..c]) == Contents(nd, ord)[..c]
    ensures Contents(rd, ord[c..]) == Contents(nd, ord)[c..]
  {
    ArenaFrame(nd, nd', ord);
    var a := ord[..c];
    var b := ord[c..];
    assert forall i :: 0 <= i < |a| ==> a[i] == ord[i];
    assert forall i :: 0 <= i < |b| ==> b[i] == ord[i + c];
    forall x | 0 <= x < |rd| ensures |rd[x].forward| == |rd[x].widths| {
      assert Height(rd, x) == Height(nd, x);
    }
    forall i | 0 <= i < |b| ensures 1 <= b[i] < |rd| && rd[b[i]].entry.Some? && |rd[b[i]].forward| >= 1 {
      assert Height(rd, b[i]) == Height(nd, b[i]);
    }
  }

  /** After a cut at rank c, a level whose left head link is NIL had its
      trail for c at the head. */
  lemma CutTrailHead(nd: seq<Node>, nd': seq<Node>, ord: seq<nat>, c: nat, l: nat, k: int)
    requires c <= |ord| && Trail(nd, ord, l, k, c) && forall y :: Height(nd', y) == Height(nd, y)
    requires Linked(nd', ord[..c], l) && Fwd(nd', 0, l) == NIL && Height(nd', 0) > l
    ensures k == 0
  {
    var o := ord[..c];
    assert forall j :: 0 < j <= c ==> At(o, j) == At(ord, j);
    assert forall j :: 0 < j <= c ==> Ht(nd', o, j) == Ht(nd, ord, j);
    HeadNil(nd', o, l);
  }
}
