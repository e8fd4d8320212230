/** Who owns which cluster. A layout gives every inode its chain and lists the
    orphans: unlinked files still open, whose chains hang one behind the other
    on the end of the log file. `LayoutOk` is the invariant the driver keeps
    between the table and the layout; it determines the table completely. */
module Layout {
  import opened Fat

  // The log file itself.
  const LOG_INO: nat := 0

  datatype Layout = Layout(chains: map<nat, seq<nat>>, order: seq<nat>, pos: map<nat, (nat, nat)>)

  predicate OrphanAt(l: Layout, j: int) {
    0 <= j < |l.order| ==>
      l.order[j] in l.chains && l.order[j] != LOG_INO && l.chains[l.order[j]] != []
  }

  // A cluster of a chain is recorded with its owner and its place ...
  predicate Placed(l: Layout, o: nat, i: int) {
    o in l.chains && 0 <= i < |l.chains[o]| ==>
      l.chains[o][i] in l.pos && l.pos[l.chains[o][i]] == (o, i)
  }

  // ... and every recorded cluster is in that place.
  predicate Owned(l: Layout, c: nat) {
    c in l.pos ==>
      && l.pos[c].0 in l.chains && l.pos[c].1 < |l.chains[l.pos[c].0]|
      && l.chains[l.pos[c].0][l.pos[c].1] == c
  }

  ghost predicate OrderOk(l: Layout) {
    && LOG_INO in l.chains && l.chains[LOG_INO] != []
    && Distinct(l.order)
    && forall j :: OrphanAt(l, j)
  }

  ghost predicate PosOk(l: Layout) {
    (forall o, i :: Placed(l, o, i)) && (forall c :: Owned(l, c))
  }

  // Where the chain before the j-th orphan leads: to that orphan, or nowhere.
  ghost function Head(l: Layout, j: nat): nat
    requires OrderOk(l)
  {
    if j < |l.order| then
      assert OrphanAt(l, j);
      l.chains[l.order[j]][0]
    else CLU_TAIL
  }

  ghost function IndexIn(order: seq<nat>, o: nat): (j: nat)
    ensures j <= |order| && (j < |order| ==> order[j] == o) && (j == |order| ==> o !in order)
  {
    if order == [] || order[0] == o then 0 else 1 + IndexIn(order[1..], o)
  }

  // What a chain's last cluster holds.
  ghost function After(l: Layout, o: nat): nat
    requires OrderOk(l)
  {
    if o == LOG_INO then Head(l, 0)
    else if o in l.order then Head(l, IndexIn(l.order, o) + 1)
    else CLU_TAIL
  }

  // What the layout says entry c of the table holds.
  ghost function Entry(l: Layout, c: nat): nat
    requires OrderOk(l) && Owned(l, c)
  {
    if c !in l.pos then CLU_FREE
    else
      var (o, i) := l.pos[c];
      if i < |l.chains[o]| - 1 then l.chains[o][i + 1] else After(l, o)
  }

  ghost predicate Holds(t: Table, l: Layout, c: nat)
    requires OrderOk(l) && PosOk(l)
  {
    assert Owned(l, c);
    if ValidClu(t, c) then t[c] == Entry(l, c) else c !in l.pos
  }

  /** The non-free clusters are split among disjoint chains, one to an inode or to
      the log file; linked files end in the end mark; each orphan leads to the next. */
  ghost predicate LayoutOk(t: Table, l: Layout) {
    OrderOk(l) && PosOk(l) && forall c :: Holds(t, l, c)
  }

  function LastOf(l: Layout, o: nat): nat
    requires o in l.chains && l.chains[o] != []
  {
    l.chains[o][|l.chains[o]| - 1]
  }

  // ----- what the invariant says

  /** Two tables with the same layout are equal: nothing in the table is left open. */
  lemma LayoutDetermines(t: Table, u: Table, l: Layout)
    requires |t| == |u| && LayoutOk(t, l) && LayoutOk(u, l)
    ensures t[VALID_CLU..] == u[VALID_CLU..]
  {
    forall c: nat | VALID_CLU <= c < |t| ensures t[c] == u[c] {
      assert Holds(t, l, c) && Holds(u, l, c);
    }
  }

  // The entry of one cluster of a chain.
  lemma LinkIs(t: Table, l: Layout, o: nat, i: nat)
    requires LayoutOk(t, l) && o in l.chains && i < |l.chains[o]|
    ensures var c := l.chains[o][i];
            ValidClu(t, c) && t[c] == (if i + 1 < |l.chains[o]| then l.chains[o][i + 1] else After(l, o))
  {
    assert Placed(l, o, i);
    assert Holds(t, l, l.chains[o][i]);
  }

  lemma OwnedPath(t: Table, l: Layout, o: nat)
    requires LayoutOk(t, l) && o in l.chains
    ensures Path(t, l.chains[o])
  {
    var p := l.chains[o];
    forall i | 0 <= i < |p| ensures ValidClu(t, p[i]) && (i + 1 < |p| ==> t[p[i]] == p[i + 1]) {
      LinkIs(t, l, o, i);
    }
  }

  lemma FileIsChain(t: Table, l: Layout, o: nat)
    requires LayoutOk(t, l) && o in l.chains && o != LOG_INO && o !in l.order && l.chains[o] != []
    ensures Chain(t, l.chains[o])
  {
    OwnedPath(t, l, o);
    LinkIs(t, l, o, |l.chains[o]| - 1);
  }

  lemma FreeIs(t: Table, l: Layout, c: nat)
    requires LayoutOk(t, l) && ValidClu(t, c)
    ensures t[c] == CLU_FREE <==> c !in l.pos
    ensures ValidContent(t, t[c])
  {
    assert Holds(t, l, c) && Owned(l, c);
    if c in l.pos {
      var (o, i) := l.pos[c];
      if i < |l.chains[o]| - 1 {
        LinkIs(t, l, o, i + 1);
      } else {
        AfterIs(t, l, o);
      }
    }
  }

  lemma AfterIs(t: Table, l: Layout, o: nat)
    requires LayoutOk(t, l)
    ensures After(l, o) == CLU_TAIL || ValidClu(t, After(l, o))
  {
    var j := if o == LOG_INO then 0 else IndexIn(l.order, o) + 1;
    assert OrphanAt(l, j);
    if j < |l.order| {
      LinkIs(t, l, l.order[j], 0);
    }
  }

  // The orphans from the j-th on, as they hang on one another.
  ghost function OrphansFrom(l: Layout, j: nat): seq<nat>
    requires OrderOk(l)
    decreases |l.order| - j
  {
    if j >= |l.order| then []
    else
      assert OrphanAt(l, j);
      l.chains[l.order[j]] + OrphansFrom(l, j + 1)
  }

  lemma ChainOfPath(t: Table, p: seq<nat>, rest: seq<nat>)
    requires p != [] && Path(t, p)
    requires if rest == [] then t[p[|p| - 1]] == CLU_TAIL else Chain(t, rest) && t[p[|p| - 1]] == rest[0]
    ensures Chain(t, p + rest)
  {
    var q := p + rest;
    forall i | 0 <= i < |q| - 1 ensures t[q[i]] == q[i + 1] {
      if i >= |p| {
        assert t[rest[i - |p|]] == rest[i - |p| + 1];
      }
    }
  }

  lemma IndexOf(order: seq<nat>, j: nat)
    requires Distinct(order) && j < |order|
    ensures IndexIn(order, order[j]) == j
  {
  }

  lemma OrphanPath(t: Table, l: Layout, j: nat)
    requires LayoutOk(t, l) && j < |l.order|
    ensures l.order[j] in l.chains
    ensures var p := l.chains[l.order[j]];
            p != [] && Path(t, p) && t[p[|p| - 1]] == Head(l, j + 1)
  {
    assert OrphanAt(l, j);
    IndexOf(l.order, j);
    OwnedPath(t, l, l.order[j]);
    LinkIs(t, l, l.order[j], |l.chains[l.order[j]]| - 1);
  }

  lemma {:induction false} OrphansAreChain(t: Table, l: Layout, j: nat)
    requires LayoutOk(t, l) && j < |l.order|
    ensures Chain(t, OrphansFrom(l, j)) && OrphansFrom(l, j)[0] == Head(l, j)
    decreases |l.order| - j
  {
    OrphanPath(t, l, j);
    var p := l.chains[l.order[j]];
    var rest := OrphansFrom(l, j + 1);
    if j + 1 < |l.order| {
      OrphansAreChain(t, l, j + 1);
    }
    ChainOfPath(t, p, rest);
    assert OrphansFrom(l, j) == p + rest;
  }

  /** The log file and all orphans behind it form one chain on the disk. */
  lemma LogIsChain(t: Table, l: Layout)
    requires LayoutOk(t, l)
    ensures Chain(t, l.chains[LOG_INO] + OrphansFrom(l, 0))
  {
    OwnedPath(t, l, LOG_INO);
    LinkIs(t, l, LOG_INO, |l.chains[LOG_INO]| - 1);
    if |l.order| > 0 {
      OrphansAreChain(t, l, 0);
    }
    ChainOfPath(t, l.chains[LOG_INO], OrphansFrom(l, 0));
  }

  // ----- a cluster is appended to an inode's chain

  function Extend(l: Layout, o: nat, n: nat): Layout
    requires o in l.chains
  {
    l.(chains := l.chains[o := l.chains[o] + [n]], pos := l.pos[n := (o, |l.chains[o]|)])
  }

  ghost function ExtendTable(t: Table, l: Layout, o: nat, n: nat): Table
    requires OrderOk(l) && o in l.chains && ValidClu(t, n)
    requires l.chains[o] != [] ==> ValidClu(t, LastOf(l, o))
  {
    if l.chains[o] == [] then t[n := CLU_TAIL]
    else t[n := After(l, o)][LastOf(l, o) := n]
  }

  lemma ExtendOrder(l: Layout, o: nat, n: nat)
    requires OrderOk(l) && o in l.chains && o != LOG_INO && (l.chains[o] == [] ==> o !in l.order)
    ensures OrderOk(Extend(l, o, n))
    ensures forall q :: After(Extend(l, o, n), q) == After(l, q)
  {
    var m := Extend(l, o, n);
    forall j ensures OrphanAt(m, j) {
      assert OrphanAt(l, j);
    }
    forall j: nat ensures Head(m, j) == Head(l, j) {
      assert OrphanAt(l, j);
    }
  }

  lemma ExtendPos(l: Layout, o: nat, n: nat)
    requires PosOk(l) && o in l.chains && n !in l.pos
    ensures PosOk(Extend(l, o, n))
  {
    var m := Extend(l, o, n);
    forall q, i ensures Placed(m, q, i) {
      assert Placed(l, q, i);
    }
    forall c ensures Owned(m, c) {
      assert Owned(l, c);
    }
  }

  /** Appending a free cluster, by the two writes of the driver, keeps the invariant. */
  lemma ExtendOk(t: Table, l: Layout, o: nat, n: nat)
    requires LayoutOk(t, l) && o in l.chains && o != LOG_INO && (l.chains[o] == [] ==> o !in l.order)
    requires ValidClu(t, n) && t[n] == CLU_FREE
    ensures l.chains[o] != [] ==> ValidClu(t, LastOf(l, o))
    ensures LayoutOk(ExtendTable(t, l, o, n), Extend(l, o, n))
  {
    FreeIs(t, l, n);
    if l.chains[o] != [] {
      LinkIs(t, l, o, |l.chains[o]| - 1);
    }
    var u, m := ExtendTable(t, l, o, n), Extend(l, o, n);
    ExtendOrder(l, o, n);
    ExtendPos(l, o, n);
    forall c ensures Holds(u, m, c) {
      assert Holds(t, l, c) && Owned(l, c) && Owned(m, c);
      assert Placed(l, o, |l.chains[o]| - 1);
    }
  }
}
