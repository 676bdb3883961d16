/** What the processor lets an access do: the rights of every entry on the walk together,
    not those of the leaf alone. */
module Rights {
  import opened Common
  import opened Paging
  import opened UserSpace

  datatype Rights = Rights(write: bool, user: bool, execute: bool) {
    function And(other: Rights): Rights {
      Rights(write && other.write, user && other.user, execute && other.execute)
    }

    predicate Within(other: Rights) {
      (write ==> other.write) && (user ==> other.user) && (execute ==> other.execute)
    }
  }

  function EntryRights(e: Entry): Rights {
    Rights(e.flags.low / WRITABLE % 2 == 1, e.flags.low / USER % 2 == 1, !e.flags.nx)
  }

  /** The rights of a page: None when the walk meets an absent entry. */
  ghost function Effective(tables: map<Frame, Table>, f: Frame, path: seq<int>): Option<Rights>
    requires |path| > 0 && IsPath(path)
    decreases |path|
  {
    if f !in tables || !tables[f][path[0]].Present() then None
    else if |path| == 1 then Some(EntryRights(tables[f][path[0]]))
    else
      match Effective(tables, tables[f][path[0]].frame, path[1..])
      case None => None
      case Some(r) => Some(EntryRights(tables[f][path[0]]).And(r))
  }

  /** What the entries above the leaf grant. */
  ghost function Above(tables: map<Frame, Table>, f: Frame, path: seq<int>): Rights
    requires |path| > 0 && IsPath(path)
    decreases |path|
  {
    if |path| == 1 || f !in tables then Rights(true, true, true)
    else EntryRights(tables[f][path[0]]).And(Above(tables, tables[f][path[0]].frame, path[1..]))
  }

  lemma {:induction false} EffectiveSplits(tables: map<Frame, Table>, f: Frame, path: seq<int>)
    requires |path| > 0 && IsPath(path)
    ensures Effective(tables, f, path) ==
            match Lookup(tables, f, path)
            case None => None
            case Some(e) => Some(Above(tables, f, path).And(EntryRights(e)))
    decreases |path|
  {
    if |path| > 1 && f in tables && tables[f][path[0]].Present() {
      EffectiveSplits(tables, tables[f][path[0]].frame, path[1..]);
    }
  }

  /** On a plain walk the leaf alone decides. */
  lemma {:induction false} PlainMeansLeaf(tables: map<Frame, Table>, f: Frame, path: seq<int>)
    requires |path| > 0 && IsPath(path) && PlainWalk(tables, f, path)
    ensures Effective(tables, f, path) ==
            match Lookup(tables, f, path) case None => None case Some(e) => Some(EntryRights(e))
    decreases |path|
  {
    if |path| > 1 && f in tables && tables[f][path[0]].Present() {
      PlainMeansLeaf(tables, tables[f][path[0]].frame, path[1..]);
    }
  }

  /** The walk of map_executable gives a mapped page exactly the rights of its leaf. It widens
      them unless the entries above granted all of these before. */
  lemma ForcedWalkWidensIff(m: Memory, place: map<Frame, Place>, kernel: Frame, root: Frame, v: VirtAddr)
    requires WellFormed(m, place, kernel) && IsRoot(place, root) && PageEntry(m, root, v).Some?
    ensures var m' := Walked(m, place, kernel, root, Path(v), true).0;
            var leaf := EntryRights(PageEntry(m, root, v).value);
            && Effective(m'.tables, root, Path(v)) == Some(leaf)
            && (Effective(m.tables, root, Path(v)) == Some(leaf) <==> leaf.Within(Above(m.tables, root, Path(v))))
  {
    hide Walked, Lookup, Effective, Above, PlainWalk, WellFormed, P4, P3, P2, P1, EntryRights;
    var walked := Walked(m, place, kernel, root, Path(v), true);
    WalkKeeps(m, place, kernel, root, Path(v), true);
    WalkCost(m, place, kernel, root, Path(v), true);
    MappedLacksNothing(m.tables, root, Path(v));
    ForcedWalkIsPlain(m, place, kernel, root, Path(v));
    EffectiveSplits(m.tables, root, Path(v));
    PlainMeansLeaf(walked.0.tables, root, Path(v));
  }

  /** Below a plain root a program may write its stack and not execute it. */
  lemma StackRights(m: Memory, root: Frame, n: nat, i: nat)
    requires i < n <= USER_STACK_PAGES && StackMapped(m, root, n) && Plain(m, root)
    ensures Effective(m.tables, root, Path(StackPage(i))) == Some(Rights(true, true, false))
  {
    hide Effective, PageEntry, Plain, PageOf;
    StackPages(i);
    assert PageEntry(m, root, StackPage(i)).value.flags == STACK_FLAGS;
    PlainRights(m, root, StackPage(i));
  }

  /** Below a root whose lower half is plain, every lower-half page has its leaf's rights. */
  lemma PlainRights(m: Memory, root: Frame, v: VirtAddr)
    requires Plain(m, root) && P4(v) < 256
    ensures Effective(m.tables, root, Path(v)) ==
            match PageEntry(m, root, v) case None => None case Some(e) => Some(EntryRights(e))
  {
    hide Lookup, Effective, PlainWalk;
    PlainMeansLeaf(m.tables, root, Path(v));
  }
}
