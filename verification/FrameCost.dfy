/** The frames that mapping a set of pages takes: one for each page, and one for each table on
    the way to them that is not there yet, counted once however many pages need it. */
module FrameCost {
  import opened Common
  import opened Paging

  /** Virtual addresses, one for each page. */
  predicate Addresses(pages: set<nat>) { forall p :: p in pages ==> p < 0x1_0000_0000_0000_0000 }

  /** The table `d` levels down the walk to `w` is there. */
  ghost predicate HasTable(tables: map<Frame, Table>, root: Frame, w: VirtAddr, d: nat) {
    d + Missing(tables, root, Path(w)) <= 3
  }

  /** The places of the tables that the pages lack. */
  ghost function Lacking(tables: map<Frame, Table>, root: Frame, pages: set<nat>): set<seq<int>>
    requires Addresses(pages)
  {
    set p, d | p in pages && d in {1, 2, 3} && !HasTable(tables, root, p, d) :: Path(p)[..d]
  }

  ghost function Cost(m: Memory, root: Frame, pages: set<nat>): nat
    requires Addresses(pages)
  {
    |pages| + |Lacking(m.tables, root, pages)|
  }

  /** One of the pages needs the table `d` levels down the walk to `w` too. */
  ghost predicate Brought(pages: set<nat>, w: VirtAddr, d: nat)
    requires Addresses(pages) && d <= 3
  {
    exists p :: p in pages && Path(p)[..d] == Path(w)[..d]
  }

  /** Since `m0` the pages, and nothing else, have taken what they cost. */
  ghost predicate Spent(m0: Memory, m: Memory, root: Frame, pages: set<nat>) {
    Addresses(pages) && |m.free| + Cost(m0, root, pages) == |m0.free| && TablesBrought(m0, m, root, pages)
  }

  /** Exactly the tables on the way to the pages are new. */
  ghost predicate TablesBrought(m0: Memory, m: Memory, root: Frame, pages: set<nat>)
    requires Addresses(pages)
  {
    forall w: VirtAddr, d: nat :: 1 <= d <= 3 ==>
      (HasTable(m.tables, root, w, d) <==> HasTable(m0.tables, root, w, d) || Brought(pages, w, d))
  }

  // ---------------------------------------------------------------------------
  // Tables and shared prefixes

  lemma {:induction false} SharedPrefix(path: seq<int>, other: seq<int>, d: nat)
    requires |path| == |other| && d < |path|
    ensures path[..d] == other[..d] <==> d <= Shared(path, other)
    decreases |path|
  {
    if d == 0 {
      assert path[..d] == other[..d];
    } else if path[0] != other[0] {
      assert path[..d][0] != other[..d][0];
    } else {
      SharedPrefix(path[1..], other[1..], d - 1);
      assert path[..d] == [path[0]] + path[1..][..d - 1];
      assert other[..d] == [other[0]] + other[1..][..d - 1];
      assert path[..d][1..] == path[1..][..d - 1] && other[..d][1..] == other[1..][..d - 1];
    }
  }

  /** Walks find the tables they share alike. */
  lemma {:induction false} SharedTables(tables: map<Frame, Table>, f: Frame, path: seq<int>, other: seq<int>, d: nat)
    requires 0 < |path| == |other| && IsPath(path) && IsPath(other) && d <= Shared(path, other)
    ensures d + Missing(tables, f, path) < |path| <==> d + Missing(tables, f, other) < |path|
    decreases |path|
  {
    MissingAtMost(tables, f, path);
    MissingAtMost(tables, f, other);
    if d > 0 && f in tables && tables[f][path[0]].Present() {
      SharedTables(tables, tables[f][path[0]].frame, path[1..], other[1..], d - 1);
    }
  }

  lemma SameTable(tables: map<Frame, Table>, root: Frame, v: VirtAddr, w: VirtAddr, d: nat)
    requires d <= 3 && Path(v)[..d] == Path(w)[..d]
    ensures HasTable(tables, root, v, d) <==> HasTable(tables, root, w, d)
  {
    hide Missing, Shared, P4, P3, P2, P1;
    SharedPrefix(Path(v), Path(w), d);
    SharedTables(tables, root, Path(v), Path(w), d);
  }

  /** A new walk adds its own tables. */
  lemma AddedTable(m: Memory, m': Memory, root: Frame, v: VirtAddr, w: VirtAddr, d: nat)
    requires TablesAdded(m, m', root, v) && d <= 3
    ensures HasTable(m'.tables, root, w, d) <==> HasTable(m.tables, root, w, d) || Path(v)[..d] == Path(w)[..d]
  {
    hide Missing, Shared, P4, P3, P2, P1;
    SharedPrefix(Path(v), Path(w), d);
  }

  // ---------------------------------------------------------------------------
  // The account

  lemma SpentNothing(m: Memory, root: Frame)
    ensures Spent(m, m, root, {})
  {
    hide HasTable;
    assert Lacking(m.tables, root, {}) == {};
  }

  /** The tables that one page lacks are as many as its walk misses. */
  lemma LackingOne(tables: map<Frame, Table>, root: Frame, p: nat)
    requires Addresses({p})
    ensures |Lacking(tables, root, {p})| == Missing(tables, root, Path(p))
  {
    hide Missing, P4, P3, P2, P1;
    MissingAtMost(tables, root, Path(p));
    var k, path := Missing(tables, root, Path(p)), Path(p);
    assert |path[..1]| == 1 && |path[..2]| == 2 && |path[..3]| == 3;
    assert Lacking(tables, root, {p}) ==
      if k == 0 then {} else if k == 1 then {path[..3]} else if k == 2 then {path[..2], path[..3]}
      else {path[..1], path[..2], path[..3]};
  }

  /** Of the tables that a further page lacked at first, the earlier pages have brought those
      they share with it; the rest it lacks still. */
  lemma LackingMore(m0: Memory, m: Memory, root: Frame, pages: set<nat>, p: nat)
    requires Addresses(pages) && TablesBrought(m0, m, root, pages) && Addresses({p})
    ensures var more := Lacking(m.tables, root, {p});
            && Lacking(m0.tables, root, pages + {p}) == Lacking(m0.tables, root, pages) + more
            && Lacking(m0.tables, root, pages) !! more
  {
    assert Addresses(pages + {p});
    hide HasTable, Lacking, TablesBrought;
    var all, old_, more := Lacking(m0.tables, root, pages + {p}), Lacking(m0.tables, root, pages),
                           Lacking(m.tables, root, {p});
    forall x | x in all || x in old_ || x in more
      ensures x in all <==> x in old_ || x in more
      ensures !(x in old_ && x in more)
    {
      OnePlace(m0, m, root, pages, p, x);
    }
  }

  lemma OnePlace(m0: Memory, m: Memory, root: Frame, pages: set<nat>, p: nat, x: seq<int>)
    requires Addresses(pages) && TablesBrought(m0, m, root, pages) && Addresses({p})
    ensures x in Lacking(m0.tables, root, pages + {p}) <==>
            x in Lacking(m0.tables, root, pages) || x in Lacking(m.tables, root, {p})
    ensures !(x in Lacking(m0.tables, root, pages) && x in Lacking(m.tables, root, {p}))
  {
    hide HasTable, TablesBrought, P4, P3, P2, P1;
    if d: nat :| d in {1, 2, 3} && x == Path(p)[..d] {
      OnePrefix(m0, m, root, pages, p, d);
      OnePrefixLeft(m0, m, root, pages, p, d);
    }
  }

  lemma OnePrefixLeft(m0: Memory, m: Memory, root: Frame, pages: set<nat>, p: nat, d: nat)
    requires Addresses(pages) && TablesBrought(m0, m, root, pages) && Addresses({p}) && d in {1, 2, 3}
    ensures HasTable(m.tables, root, p, d) <==> HasTable(m0.tables, root, p, d) || Brought(pages, p, d)
  {
    hide HasTable, Brought, P4, P3, P2, P1;
  }

  lemma OnePrefix(m0: Memory, m: Memory, root: Frame, pages: set<nat>, p: nat, d: nat)
    requires Addresses(pages) && TablesBrought(m0, m, root, pages) && Addresses({p}) && d in {1, 2, 3}
    ensures var x := Path(p)[..d];
            && (x in Lacking(m.tables, root, {p}) <==> !HasTable(m.tables, root, p, d))
            && (x in Lacking(m0.tables, root, pages) <==> !HasTable(m0.tables, root, p, d) && Brought(pages, p, d))
            && (x in Lacking(m0.tables, root, pages + {p}) <==> !HasTable(m0.tables, root, p, d))
  {
    hide HasTable, P4, P3, P2, P1;
    forall q | q in pages + {p} && Path(q)[..d] == Path(p)[..d]
      ensures HasTable(m0.tables, root, q, d) <==> HasTable(m0.tables, root, p, d)
    {
      SameTable(m0.tables, root, q, p, d);
    }
    var x := Path(p)[..d];
    assert |x| == d;
    assert p in pages + {p} && p in {p};
  }

  /** So a further page costs a frame and the tables its walk misses by now. */
  lemma CostMore(m0: Memory, m: Memory, root: Frame, pages: set<nat>, p: nat)
    requires Spent(m0, m, root, pages) && Addresses({p}) && p !in pages
    ensures Cost(m0, root, pages + {p}) == Cost(m0, root, pages) + 1 + Missing(m.tables, root, Path(p))
  {
    LackingMore(m0, m, root, pages, p);
    LackingOne(m.tables, root, p);
  }

  /** One more page, mapped with the frames it lacked. */
  lemma SpentMore(m0: Memory, m: Memory, m': Memory, root: Frame, pages: set<nat>, p: nat)
    requires Spent(m0, m, root, pages) && Addresses({p}) && p !in pages && TablesAdded(m, m', root, p)
    requires |m'.free| == |m.free| - 1 - Missing(m.tables, root, Path(p))
    ensures Spent(m0, m', root, pages + {p})
  {
    hide Missing, Cost, P4, P3, P2, P1, TablesBrought, TablesAdded;
    CostMore(m0, m, root, pages, p);
    MoreBrought(m0, m, m', root, pages, p);
  }

  lemma MoreBrought(m0: Memory, m: Memory, m': Memory, root: Frame, pages: set<nat>, p: nat)
    requires Addresses(pages) && Addresses({p}) && TablesBrought(m0, m, root, pages) && TablesAdded(m, m', root, p)
    ensures TablesBrought(m0, m', root, pages + {p})
  {
    hide HasTable, P4, P3, P2, P1;
    forall w: VirtAddr, d: nat | 1 <= d <= 3
      ensures HasTable(m'.tables, root, w, d) <==> HasTable(m0.tables, root, w, d) || Brought(pages + {p}, w, d)
    {
      AddedTable(m, m', root, p, w, d);
      BroughtMore(pages, p, w, d);
      hide Brought, TablesAdded;
    }
  }

  lemma BroughtMore(pages: set<nat>, p: nat, w: VirtAddr, d: nat)
    requires Addresses(pages) && Addresses({p}) && d <= 3
    ensures Brought(pages + {p}, w, d) <==> Brought(pages, w, d) || Path(p)[..d] == Path(w)[..d]
  {
    hide P4, P3, P2, P1;
    assert p in pages + {p};
    assert forall q :: q in pages ==> q in pages + {p};
  }

  /** A page that cannot be mapped any more. */
  lemma TooFew(m0: Memory, m: Memory, root: Frame, pages: set<nat>, p: nat)
    requires Spent(m0, m, root, pages) && Addresses({p}) && p !in pages
    requires |m.free| < 1 + Missing(m.tables, root, Path(p))
    ensures |m0.free| < Cost(m0, root, pages + {p})
  {
    hide Missing, Cost, P4, P3, P2, P1, TablesBrought;
    CostMore(m0, m, root, pages, p);
  }

  lemma SpentEnough(m0: Memory, m: Memory, root: Frame, pages: set<nat>)
    requires Spent(m0, m, root, pages)
    ensures |m0.free| >= Cost(m0, root, pages)
  {
  }

  /** More pages never cost less. */
  lemma CostGrows(m: Memory, root: Frame, pages: set<nat>, more: set<nat>)
    requires Addresses(more) && pages <= more
    ensures Cost(m, root, pages) <= Cost(m, root, more)
  {
    hide Lacking;
    Subset(pages, more);
    LackingGrows(m.tables, root, pages, more);
  }

  lemma LackingGrows(tables: map<Frame, Table>, root: Frame, pages: set<nat>, more: set<nat>)
    requires Addresses(more) && pages <= more
    ensures |Lacking(tables, root, pages)| <= |Lacking(tables, root, more)|
  {
    hide HasTable, P4, P3, P2, P1;
    assert Lacking(tables, root, pages) <= Lacking(tables, root, more);
    Subset(Lacking(tables, root, pages), Lacking(tables, root, more));
  }

  /** A page costs at most four frames. */
  lemma {:induction false} CostAtMost(m: Memory, root: Frame, pages: set<nat>)
    requires Addresses(pages)
    ensures Cost(m, root, pages) <= 4 * |pages|
    decreases |pages|
  {
    hide HasTable, P4, P3, P2, P1;
    if pages == {} {
      assert Lacking(m.tables, root, pages) == {};
    } else {
      var p :| p in pages;
      var rest := pages - {p};
      CostAtMost(m, root, rest);
      var path := Path(p);
      var own := {path[..1], path[..2], path[..3]};
      assert Lacking(m.tables, root, pages) <= Lacking(m.tables, root, rest) + own;
      Subset(Lacking(m.tables, root, pages), Lacking(m.tables, root, rest) + own);
    }
  }

  // ---------------------------------------------------------------------------
  // Ranges of pages

  /** The pages of lo..hi, by address. */
  function PageRange(lo: nat, hi: nat): set<nat> {
    set a: nat | lo <= a < hi && a % 4096 == 0
  }

  lemma {:induction false} RangeSize(lo: nat, n: nat)
    requires lo % 4096 == 0
    ensures |PageRange(lo, lo + n * 4096)| == n
    decreases n
  {
    if n == 0 {
      assert PageRange(lo, lo) == {};
    } else {
      RangeSize(lo, n - 1);
      RangeGrows(lo, lo + (n - 1) * 4096);
    }
  }

  lemma RangeGrows(lo: nat, hi: nat)
    requires lo % 4096 == 0 && hi % 4096 == 0 && lo <= hi
    ensures PageRange(lo, hi + 4096) == PageRange(lo, hi) + {hi} && hi !in PageRange(lo, hi)
  {
  }

  lemma SameFreeAndTables(m0: Memory, m: Memory, m': Memory, root: Frame, pages: set<nat>)
    requires Spent(m0, m, root, pages) && m'.tables == m.tables && m'.free == m.free
    ensures Spent(m0, m', root, pages)
  {
  }
}
