/** How the layout changes: an unlinked chain is hung on the pool behind the log
    file, a file is cut in two, an orphan loses clusters from its front, and at
    mount the pool becomes part of the log file's own chain. */
module Orphans {
  import opened Fat
  import opened Layout

  // The chain the next orphan is hung on, and its last cluster.
  ghost function PoolOwner(l: Layout): nat {
    if l.order == [] then LOG_INO else l.order[|l.order| - 1]
  }

  ghost function PoolLast(l: Layout): nat
    requires OrderOk(l)
  {
    assert OrphanAt(l, |l.order| - 1);
    LastOf(l, PoolOwner(l))
  }

  lemma PoolOwnerAfter(l: Layout)
    requires OrderOk(l)
    ensures After(l, PoolOwner(l)) == CLU_TAIL
  {
    if l.order != [] {
      assert OrphanAt(l, |l.order| - 1);
      IndexOf(l.order, |l.order| - 1);
    }
  }

  lemma LastIs(t: Table, l: Layout, o: nat)
    requires LayoutOk(t, l) && o in l.chains && l.chains[o] != []
    ensures var c := LastOf(l, o);
            ValidClu(t, c) && t[c] == After(l, o) && c in l.pos && l.pos[c] == (o, |l.chains[o]| - 1)
  {
    LinkIs(t, l, o, |l.chains[o]| - 1);
    assert Placed(l, o, |l.chains[o]| - 1);
  }

  lemma PoolLastIs(t: Table, l: Layout)
    requires LayoutOk(t, l)
    ensures PoolOwner(l) in l.chains && l.chains[PoolOwner(l)] != []
    ensures ValidClu(t, PoolLast(l)) && t[PoolLast(l)] == CLU_TAIL
  {
    assert OrphanAt(l, |l.order| - 1);
    PoolOwnerAfter(l);
    LastIs(t, l, PoolOwner(l));
  }

  // ----- hanging a chain on the pool

  ghost function Hang(l: Layout, o: nat): Layout {
    l.(order := l.order + [o])
  }

  ghost predicate CanHang(l: Layout, o: nat) {
    o in l.chains && l.chains[o] != [] && o != LOG_INO && o !in l.order
  }

  lemma HangOrder(l: Layout, o: nat)
    requires OrderOk(l) && CanHang(l, o)
    ensures OrderOk(Hang(l, o))
    ensures forall q :: After(Hang(l, o), q) == if q == PoolOwner(l) then l.chains[o][0] else After(l, q)
  {
    var m := Hang(l, o);
    forall j ensures OrphanAt(m, j) {
      assert OrphanAt(l, j);
    }
    forall j: nat
      ensures Head(m, j) == if j == |l.order| then l.chains[o][0] else Head(l, j)
    {
      assert OrphanAt(l, j);
    }
    forall q ensures After(m, q) == if q == PoolOwner(l) then l.chains[o][0] else After(l, q) {
      HangAfter(l, o, q);
    }
  }

  lemma IndexSnoc(order: seq<nat>, o: nat, q: nat)
    ensures IndexIn(order + [o], q) == if q in order then IndexIn(order, q) else if q == o then |order| else |order| + 1
  {
    if order != [] {
      assert (order + [o])[1..] == order[1..] + [o];
      if order[0] != q {
        IndexSnoc(order[1..], o, q);
      }
    }
  }

  lemma HangAfter(l: Layout, o: nat, q: nat)
    requires OrderOk(l) && CanHang(l, o) && OrderOk(Hang(l, o))
    requires forall j: nat :: Head(Hang(l, o), j) == if j == |l.order| then l.chains[o][0] else Head(l, j)
    ensures After(Hang(l, o), q) == if q == PoolOwner(l) then l.chains[o][0] else After(l, q)
  {
    var m := Hang(l, o);
    IndexSnoc(l.order, o, q);
    if q in l.order {
      IndexOf(l.order, IndexIn(l.order, q));
      assert IndexIn(l.order, q) == |l.order| - 1 <==> q == l.order[|l.order| - 1];
    }
    assert Head(m, |l.order| + 1) == CLU_TAIL;
    assert OrphanAt(l, IndexIn(l.order, LOG_INO));
  }

  /** Hanging an unlinked chain on the pool, by one write, keeps the invariant. */
  lemma HangOk(t: Table, l: Layout, o: nat)
    requires LayoutOk(t, l) && CanHang(l, o)
    ensures ValidClu(t, PoolLast(l))
    ensures LayoutOk(t[PoolLast(l) := l.chains[o][0]], Hang(l, o))
  {
    PoolLastIs(t, l);
    LastIs(t, l, PoolOwner(l));
    HangOrder(l, o);
    var m := Hang(l, o);
    var u := t[PoolLast(l) := l.chains[o][0]];
    forall q, i ensures Placed(m, q, i) {
      assert Placed(l, q, i);
    }
    forall c ensures Owned(m, c) {
      assert Owned(l, c);
    }
    forall c ensures Holds(u, m, c) {
      assert Holds(t, l, c) && Owned(l, c) && Owned(m, c);
    }
  }

  // ----- cutting a file in two

  function CutPos(p: (nat, nat), o: nat, k: nat, f: nat): (nat, nat) {
    if p.0 == o && p.1 >= k then (f, p.1 - k) else p
  }

  // The clusters of o from position k on become the chain of f.
  ghost function Cut(l: Layout, o: nat, k: nat, f: nat): Layout
    requires o in l.chains && k <= |l.chains[o]|
  {
    Layout(l.chains[o := l.chains[o][..k]][f := l.chains[o][k..]], l.order,
           map c | c in l.pos :: CutPos(l.pos[c], o, k, f))
  }

  ghost predicate CanCut(l: Layout, o: nat, k: nat, f: nat) {
    && o in l.chains && o !in l.order && k < |l.chains[o]|
    && f !in l.chains
    && (o == LOG_INO ==> k > 0 && l.order == [])
  }

  lemma CutOrder(l: Layout, o: nat, k: nat, f: nat)
    requires OrderOk(l) && CanCut(l, o, k, f)
    ensures OrderOk(Cut(l, o, k, f)) && After(l, o) == CLU_TAIL && CanHang(Cut(l, o, k, f), f)
    ensures forall q :: After(Cut(l, o, k, f), q) == After(l, q)
    ensures After(l, f) == CLU_TAIL
  {
    var m := Cut(l, o, k, f);
    forall j ensures OrphanAt(m, j) {
      assert OrphanAt(l, j);
    }
    forall j: nat ensures Head(m, j) == Head(l, j) {
      assert OrphanAt(l, j);
    }
    assert OrphanAt(l, IndexIn(l.order, f));
  }

  lemma CutPosOk(l: Layout, o: nat, k: nat, f: nat)
    requires PosOk(l) && CanCut(l, o, k, f)
    ensures PosOk(Cut(l, o, k, f))
  {
    var m := Cut(l, o, k, f);
    forall q, i ensures Placed(m, q, i) {
      assert Placed(l, q, i);
      if q == f {
        assert Placed(l, o, i + k);
      }
    }
    forall c ensures Owned(m, c) {
      assert Owned(l, c);
    }
  }

  ghost function CutTable(t: Table, l: Layout, o: nat, k: nat): Table
    requires o in l.chains && k < |l.chains[o]|
    requires k > 0 ==> ValidClu(t, l.chains[o][k - 1])
  {
    if k > 0 then t[l.chains[o][k - 1] := CLU_TAIL] else t
  }

  /** Writing the end mark after k clusters cuts a file into two files. */
  lemma CutOk(t: Table, l: Layout, o: nat, k: nat, f: nat)
    requires LayoutOk(t, l) && CanCut(l, o, k, f)
    ensures k > 0 ==> ValidClu(t, l.chains[o][k - 1])
    ensures LayoutOk(CutTable(t, l, o, k), Cut(l, o, k, f))
  {
    if k > 0 {
      LinkIs(t, l, o, k - 1);
    }
    CutOrder(l, o, k, f);
    CutPosOk(l, o, k, f);
    var m, u := Cut(l, o, k, f), CutTable(t, l, o, k);
    forall c ensures Holds(u, m, c) {
      assert Holds(t, l, c) && Owned(l, c) && Owned(m, c);
      assert Placed(l, o, k - 1);
    }
  }

  // ----- an orphan loses clusters from its front

  ghost function PrevOwner(l: Layout, o: nat): nat
    requires o in l.order
  {
    var j := IndexIn(l.order, o);
    if j == 0 then LOG_INO else l.order[j - 1]
  }

  ghost function PrevLast(l: Layout, o: nat): nat
    requires OrderOk(l) && o in l.order
  {
    assert OrphanAt(l, IndexIn(l.order, o) - 1);
    LastOf(l, PrevOwner(l, o))
  }

  predicate Gone(p: (nat, nat), o: nat, b: nat) {
    p.0 == o && p.1 < b
  }

  function Without<T>(s: seq<T>, j: nat): (r: seq<T>)
    requires j < |s|
    ensures |r| == |s| - 1
  {
    s[..j] + s[j + 1..]
  }

  lemma WithoutAt<T>(s: seq<T>, j: nat, i: nat)
    requires j < |s| && i < |s| - 1
    ensures Without(s, j)[i] == s[if i < j then i else i + 1]
  {
  }

  ghost function Drop(l: Layout, o: nat, b: nat): Layout
    requires o in l.chains && o in l.order && b <= |l.chains[o]|
  {
    Layout(l.chains[o := l.chains[o][b..]],
           if b == |l.chains[o]| then Without(l.order, IndexIn(l.order, o)) else l.order,
           map c | c in l.pos && !Gone(l.pos[c], o, b) ::
             if l.pos[c].0 == o then (o, l.pos[c].1 - b) else l.pos[c])
  }

  ghost predicate CanDrop(l: Layout, o: nat, b: nat) {
    OrderOk(l) && o in l.order && o in l.chains && b <= |l.chains[o]|
  }

  // What the chain before the orphan leads to when b of the orphan's clusters are gone.
  ghost function NextOf(l: Layout, o: nat, b: nat): nat
    requires CanDrop(l, o, b)
  {
    if b < |l.chains[o]| then l.chains[o][b] else After(l, o)
  }

  ghost function DropEntry(t: Table, l: Layout, o: nat, b: nat, c: nat): nat
    requires CanDrop(l, o, b) && ValidClu(t, c)
  {
    if c in l.pos && Gone(l.pos[c], o, b) then CLU_FREE
    else if c == PrevLast(l, o) then NextOf(l, o, b)
    else t[c]
  }

  ghost predicate Dropped(t: Table, l: Layout, o: nat, b: nat, u: Table)
    requires CanDrop(l, o, b)
  {
    |u| == |t| && forall c: nat :: ValidClu(t, c) ==> u[c] == DropEntry(t, l, o, b, c)
  }

  lemma WithoutIndex(order: seq<nat>, j: nat, q: nat)
    requires Distinct(order) && j < |order| && q in order && q != order[j]
    ensures q in Without(order, j)
    ensures var i := IndexIn(order, q);
            IndexIn(Without(order, j), q) == if i < j then i else i - 1
  {
    var i := IndexIn(order, q);
    var w := Without(order, j);
    var i' := if i < j then i else i - 1;
    assert w[i'] == q;
    assert Distinct(w);
    IndexOf(w, i');
  }

  lemma DropHead(l: Layout, o: nat, b: nat)
    requires CanDrop(l, o, b) && b < |l.chains[o]|
    ensures OrderOk(Drop(l, o, b))
    ensures forall j: nat :: Head(Drop(l, o, b), j) == if j == IndexIn(l.order, o) then l.chains[o][b] else Head(l, j)
  {
    var m := Drop(l, o, b);
    forall j ensures OrphanAt(m, j) {
      assert OrphanAt(l, j);
    }
    forall j: nat
      ensures Head(m, j) == if j == IndexIn(l.order, o) then l.chains[o][b] else Head(l, j)
    {
      assert OrphanAt(l, j);
    }
  }

  lemma DropAllOrder(l: Layout, o: nat)
    requires OrderOk(l) && o in l.order && o in l.chains
    ensures OrderOk(Drop(l, o, |l.chains[o]|))
  {
    var m, j := Drop(l, o, |l.chains[o]|), IndexIn(l.order, o);
    assert OrphanAt(l, j);
    assert Distinct(m.order);
    forall i ensures OrphanAt(m, i) {
      assert OrphanAt(l, i) && OrphanAt(l, i + 1);
    }
  }

  lemma DropAllHead(l: Layout, o: nat, m: Layout, i: nat)
    requires OrderOk(l) && o in l.order && o in l.chains && m == Drop(l, o, |l.chains[o]|) && OrderOk(m)
    ensures Head(m, i) == Head(l, if i < IndexIn(l.order, o) then i else i + 1)
  {
    assert OrphanAt(m, i) && OrphanAt(l, i) && OrphanAt(l, i + 1);
  }

  lemma NotInOrder(l: Layout)
    requires OrderOk(l)
    ensures LOG_INO !in l.order
  {
    assert OrphanAt(l, IndexIn(l.order, LOG_INO));
  }

  lemma DropAfter(l: Layout, o: nat, b: nat, q: nat)
    requires CanDrop(l, o, b) && q != PrevOwner(l, o) && (q == o ==> b < |l.chains[o]|)
    ensures OrderOk(Drop(l, o, b)) && After(Drop(l, o, b), q) == After(l, q)
  {
    var m, j := Drop(l, o, b), IndexIn(l.order, o);
    NotInOrder(l);
    if b < |l.chains[o]| {
      DropHead(l, o, b);
    } else {
      if q in l.order {
        DropAllAfter(l, o, q);
      } else {
        DropAllAfterOut(l, o, q);
      }
    }
  }

  lemma DropAllAfterIn(l: Layout, o: nat, q: nat, i: nat)
    requires OrderOk(l) && o in l.order && o in l.chains && q in l.order && q != o && q != PrevOwner(l, o)
    requires i == IndexIn(l.order, q)
    ensures var m, j := Drop(l, o, |l.chains[o]|), IndexIn(l.order, o);
            && q in m.order && IndexIn(m.order, q) == (if i < j then i else i - 1)
            && i != j && i + 1 != j
  {
    DropAllIndex(l.order, o, q);
  }

  lemma DropAllAfter(l: Layout, o: nat, q: nat)
    requires OrderOk(l) && o in l.order && o in l.chains && q in l.order && q != o && q != PrevOwner(l, o)
    ensures var m := Drop(l, o, |l.chains[o]|);
            OrderOk(m) && After(m, q) == After(l, q)
  {
    DropAllOrder(l, o);
    var m, j, i := Drop(l, o, |l.chains[o]|), IndexIn(l.order, o), IndexIn(l.order, q);
    DropAllAfterIn(l, o, q, i);
    NotInOrder(l);
    NotInOrder(m);
    assert After(l, q) == Head(l, i + 1);
    if i < j {
      assert After(m, q) == Head(m, i + 1);
      DropAllHead(l, o, m, i + 1);
    } else {
      assert After(m, q) == Head(m, i);
      DropAllHead(l, o, m, i);
    }
  }

  lemma DropAllAfterOut(l: Layout, o: nat, q: nat)
    requires OrderOk(l) && o in l.order && o in l.chains && q !in l.order && q != PrevOwner(l, o)
    ensures var m := Drop(l, o, |l.chains[o]|);
            OrderOk(m) && After(m, q) == After(l, q)
  {
    DropAllOrder(l, o);
    if q == LOG_INO {
      DropAllHead(l, o, Drop(l, o, |l.chains[o]|), 0);
    } else {
      DropAllIndex(l.order, o, q);
    }
  }

  lemma DropAllIndex(order: seq<nat>, o: nat, q: nat)
    requires Distinct(order) && o in order && q != o
    ensures var j, w := IndexIn(order, o), Without(order, IndexIn(order, o));
            && (q in w <==> q in order)
            && (q in order ==> IndexIn(w, q) == if IndexIn(order, q) < j then IndexIn(order, q) else IndexIn(order, q) - 1)
            && (q in order && IndexIn(order, q) + 1 == j ==> q == order[j - 1])
            && (q in order ==> IndexIn(order, q) != j)
  {
    var j := IndexIn(order, o);
    if q in order {
      WithoutIndex(order, j, q);
    }
  }

  lemma DropAfterPrev(l: Layout, o: nat, b: nat)
    requires CanDrop(l, o, b)
    ensures OrderOk(Drop(l, o, b)) && After(Drop(l, o, b), PrevOwner(l, o)) == NextOf(l, o, b)
  {
    var m, j := Drop(l, o, b), IndexIn(l.order, o);
    NotInOrder(l);
    if j > 0 {
      IndexOf(l.order, j - 1);
    }
    if b < |l.chains[o]| {
      DropHead(l, o, b);
    } else {
      DropAllOrder(l, o);
      DropAllHead(l, o, m, j);
      if j > 0 {
        WithoutIndex(l.order, j, l.order[j - 1]);
      }
    }
  }

  lemma DropPos(l: Layout, o: nat, b: nat)
    requires CanDrop(l, o, b) && PosOk(l)
    ensures PosOk(Drop(l, o, b))
  {
    var m := Drop(l, o, b);
    forall q, i ensures Placed(m, q, i) {
      assert Placed(l, q, i);
      assert Placed(l, o, i + b);
    }
    forall c ensures Owned(m, c) {
      assert Owned(l, c);
    }
  }

  lemma PrevLastIs(t: Table, l: Layout, o: nat)
    requires LayoutOk(t, l) && o in l.order
    ensures var q := PrevOwner(l, o);
            q in l.chains && l.chains[q] != [] && q != o
            && ValidClu(t, PrevLast(l, o)) && PrevLast(l, o) in l.pos && l.pos[PrevLast(l, o)] == (q, |l.chains[q]| - 1)
  {
    assert OrphanAt(l, IndexIn(l.order, o) - 1);
    NotInOrder(l);
    LastIs(t, l, PrevOwner(l, o));
  }

  /** Freeing the first b clusters of an orphan and linking past them keeps the
      invariant, with the rest of the orphan still in its place in the pool. */
  lemma DropOk(t: Table, l: Layout, o: nat, b: nat, u: Table)
    requires LayoutOk(t, l) && CanDrop(l, o, b) && Dropped(t, l, o, b, u)
    ensures LayoutOk(u, Drop(l, o, b))
  {
    var m := Drop(l, o, b);
    DropPos(l, o, b);
    DropAfterPrev(l, o, b);
    PrevLastIs(t, l, o);
    forall c: nat ensures Holds(u, m, c) {
      assert Holds(t, l, c) && Owned(l, c) && Owned(m, c);
      if ValidClu(t, c) {
        assert u[c] == DropEntry(t, l, o, b, c);
        if c in m.pos {
          DropEntryIs(t, l, o, b, c);
        }
      }
    }
  }

  lemma DropEntryIs(t: Table, l: Layout, o: nat, b: nat, c: nat)
    requires LayoutOk(t, l) && CanDrop(l, o, b) && ValidClu(t, c) && c in Drop(l, o, b).pos
    requires OrderOk(Drop(l, o, b)) && PosOk(Drop(l, o, b))
    ensures Owned(Drop(l, o, b), c) && DropEntry(t, l, o, b, c) == Entry(Drop(l, o, b), c)
  {
    var m := Drop(l, o, b);
    assert Holds(t, l, c) && Owned(l, c) && Owned(m, c);
    PrevLastIs(t, l, o);
    DropAfterPrev(l, o, b);
    var (q, i) := l.pos[c];
    if q != PrevOwner(l, o) {
      DropAfter(l, o, b, q);
    }
  }

  // ----- the number of clusters in use

  lemma ExtendCount(l: Layout, o: nat, n: nat)
    requires o in l.chains && n !in l.pos
    ensures |Extend(l, o, n).pos| == |l.pos| + 1
  {
    assert Extend(l, o, n).pos.Keys == l.pos.Keys + {n};
  }

  lemma CutCount(l: Layout, o: nat, k: nat, f: nat)
    requires CanCut(l, o, k, f)
    ensures |Cut(l, o, k, f).pos| == |l.pos|
  {
    assert Cut(l, o, k, f).pos.Keys == l.pos.Keys;
  }

  lemma ChainDistinct(l: Layout, o: nat)
    requires PosOk(l) && o in l.chains
    ensures Distinct(l.chains[o])
  {
    forall i, j | 0 <= i < j < |l.chains[o]| ensures l.chains[o][i] != l.chains[o][j] {
      assert Placed(l, o, i) && Placed(l, o, j);
    }
  }

  // A cluster is among the first b of a chain exactly when it is recorded there.
  lemma GoneIs(l: Layout, o: nat, b: nat, c: nat)
    requires PosOk(l) && o in l.chains && b <= |l.chains[o]|
    ensures c in l.chains[o][..b] <==> c in l.pos && Gone(l.pos[c], o, b)
  {
    assert Owned(l, c);
    if c in l.pos && Gone(l.pos[c], o, b) {
      assert l.chains[o][..b][l.pos[c].1] == c;
    } else {
      forall i | 0 <= i < b ensures l.chains[o][..b][i] != c {
        assert Placed(l, o, i);
      }
    }
  }

  lemma DropCount(l: Layout, o: nat, b: nat)
    requires PosOk(l) && CanDrop(l, o, b)
    ensures |Drop(l, o, b).pos| + b == |l.pos|
  {
    var gone := l.chains[o][..b];
    ChainDistinct(l, o);
    DistinctCount(gone);
    var kept := Drop(l, o, b).pos.Keys;
    forall c: nat ensures c in l.pos <==> c in kept || c in Elements(gone) {
      GoneIs(l, o, b, c);
    }
    forall c: nat ensures !(c in kept && c in Elements(gone)) {
      GoneIs(l, o, b, c);
    }
    assert l.pos.Keys == kept + Elements(gone);
  }

  /** The clusters in use, counted in the table, are those the layout places. */
  lemma UsedCount(t: Table, l: Layout)
    requires LayoutOk(t, l)
    ensures |UsedBelow(t, |t|)| == |l.pos|
  {
    var used := UsedBelow(t, |t|);
    forall c: nat ensures c in used <==> c in l.pos {
      assert Holds(t, l, c);
      if ValidClu(t, c) {
        FreeIs(t, l, c);
      }
    }
    assert used == l.pos.Keys;
  }

  // ----- a name that is no longer needed

  function Forget(l: Layout, f: nat): Layout {
    l.(chains := l.chains - {f})
  }

  lemma ForgetOk(t: Table, l: Layout, f: nat)
    requires LayoutOk(t, l) && f in l.chains && l.chains[f] == []
    ensures LayoutOk(t, Forget(l, f))
  {
    var m := Forget(l, f);
    forall j ensures OrphanAt(m, j) {
      assert OrphanAt(l, j);
    }
    forall j: nat ensures Head(m, j) == Head(l, j) {
      assert OrphanAt(l, j);
    }
    forall q, i ensures Placed(m, q, i) {
      assert Placed(l, q, i);
    }
    forall c ensures Owned(m, c) {
      assert Owned(l, c);
    }
    forall c: nat ensures Holds(t, m, c) {
      assert Holds(t, l, c) && Owned(l, c) && Owned(m, c);
    }
  }

  // A name nothing has yet.
  lemma FreshName(l: Layout) returns (f: nat)
    ensures f !in l.chains
  {
    f := Above(l.chains.Keys);
  }

  ghost function Above(s: set<nat>): (m: nat)
    ensures forall c: nat :: c in s ==> c < m
    decreases s
  {
    if s == {} then 0
    else
      var c: nat :| c in s;
      var rest := s - {c};
      var m := Above(rest);
      assert forall d: nat :: d in s ==> d == c || d in rest;
      if c < m then m else c + 1
  }

  // ----- the pool as part of the log file

  function AbsorbPos(p: (nat, nat), o: nat, n: nat): (nat, nat) {
    if p.0 == o then (LOG_INO, n + p.1) else p
  }

  // The log file's chain runs on through its first orphan.
  ghost function AbsorbOne(l: Layout): Layout
    requires OrderOk(l) && l.order != []
  {
    assert OrphanAt(l, 0);
    var o, own := l.order[0], l.chains[LOG_INO];
    Layout(l.chains[LOG_INO := own + l.chains[o]][o := []], l.order[1..],
           map c | c in l.pos :: AbsorbPos(l.pos[c], o, |own|))
  }

  lemma AbsorbOrder(l: Layout)
    requires OrderOk(l) && l.order != []
    ensures OrderOk(AbsorbOne(l))
    ensures forall j: nat :: Head(AbsorbOne(l), j) == Head(l, j + 1)
  {
    var m := AbsorbOne(l);
    NotInOrder(l);
    assert OrphanAt(l, 0);
    forall j ensures OrphanAt(m, j) {
      assert OrphanAt(l, j + 1);
    }
    forall j: nat ensures Head(m, j) == Head(l, j + 1) {
      assert OrphanAt(l, j + 1) && OrphanAt(m, j);
    }
  }

  lemma AbsorbAfter(l: Layout, q: nat)
    requires OrderOk(l) && l.order != [] && OrderOk(AbsorbOne(l)) && q != l.order[0] && q != LOG_INO
    ensures After(AbsorbOne(l), q) == After(l, q)
  {
    AbsorbOrder(l);
  }

  lemma AbsorbPosOk(l: Layout)
    requires OrderOk(l) && PosOk(l) && l.order != []
    ensures PosOk(AbsorbOne(l))
  {
    var m, o, n := AbsorbOne(l), l.order[0], |l.chains[LOG_INO]|;
    assert OrphanAt(l, 0);
    forall q, i ensures Placed(m, q, i) {
      assert Placed(l, q, i);
      assert Placed(l, o, i - n);
    }
    forall c ensures Owned(m, c) {
      assert Owned(l, c);
    }
  }

  lemma AbsorbOneOk(t: Table, l: Layout)
    requires LayoutOk(t, l) && l.order != []
    ensures LayoutOk(t, AbsorbOne(l))
  {
    var m, o := AbsorbOne(l), l.order[0];
    assert OrphanAt(l, 0);
    AbsorbOrder(l);
    AbsorbPosOk(l);
    forall c: nat ensures Holds(t, m, c) {
      AbsorbHolds(t, l, c);
    }
  }

  lemma AbsorbHolds(t: Table, l: Layout, c: nat)
    requires LayoutOk(t, l) && l.order != [] && OrderOk(AbsorbOne(l)) && PosOk(AbsorbOne(l))
    ensures Holds(t, AbsorbOne(l), c)
  {
    var m, o := AbsorbOne(l), l.order[0];
    assert OrphanAt(l, 0);
    assert Holds(t, l, c) && Owned(l, c) && Owned(m, c);
    if c in l.pos && l.pos[c].0 != o && l.pos[c].0 != LOG_INO {
      AbsorbAfter(l, l.pos[c].0);
    } else {
      AbsorbOrder(l);
    }
  }

  ghost function Absorbed(l: Layout): (m: Layout)
    requires OrderOk(l)
    decreases |l.order|
  {
    if l.order == [] then l
    else
      AbsorbOrder(l);
      Absorbed(AbsorbOne(l))
  }

  // The chains after one orphan was absorbed.
  lemma AbsorbOneChains(l: Layout)
    requires OrderOk(l) && l.order != []
    ensures var m, o := AbsorbOne(l), l.order[0];
            && OrderOk(m) && m.order == l.order[1..] && m.chains.Keys == l.chains.Keys
            && o in l.chains && o != LOG_INO && o !in m.order
            && m.chains[LOG_INO] + OrphansFrom(m, 0) == l.chains[LOG_INO] + OrphansFrom(l, 0)
            && forall q :: q in l.chains && q != LOG_INO ==> m.chains[q] == if q == o then [] else l.chains[q]
  {
    AbsorbOrder(l);
    NotInOrder(l);
    assert OrphanAt(l, 0);
    OrphansShift(l, 0);
    var m, o := AbsorbOne(l), l.order[0];
    assert m.chains[LOG_INO] + OrphansFrom(m, 0) == l.chains[LOG_INO] + (l.chains[o] + OrphansFrom(m, 0));
    assert forall j :: 0 <= j < |m.order| ==> m.order[j] == l.order[j + 1];
  }

  /** Read from its start, the log file's chain is its own clusters and then
      every orphan, in order; all other chains are as they were. */
  lemma {:induction false} AbsorbedOk(t: Table, l: Layout)
    requires LayoutOk(t, l)
    ensures var m := Absorbed(l);
            && LayoutOk(t, m) && m.order == [] && m.chains.Keys == l.chains.Keys
            && m.chains[LOG_INO] == l.chains[LOG_INO] + OrphansFrom(l, 0)
            && forall o :: o in l.chains && o != LOG_INO ==> m.chains[o] == if o in l.order then [] else l.chains[o]
    decreases |l.order|
  {
    if l.order != [] {
      AbsorbOneOk(t, l);
      AbsorbOneChains(l);
      AbsorbedOk(t, AbsorbOne(l));
      assert l.order == [l.order[0]] + l.order[1..];
    } else {
      assert l.chains[LOG_INO] + OrphansFrom(l, 0) == l.chains[LOG_INO];
    }
  }

  lemma {:induction false} OrphansShift(l: Layout, j: nat)
    requires OrderOk(l) && l.order != [] && OrderOk(AbsorbOne(l))
    ensures OrphansFrom(AbsorbOne(l), j) == OrphansFrom(l, j + 1)
    decreases |l.order| - j
  {
    if j + 1 < |l.order| {
      assert OrphanAt(l, j + 1) && OrphanAt(AbsorbOne(l), j);
      NotInOrder(l);
      OrphansShift(l, j + 1);
    }
  }
}
