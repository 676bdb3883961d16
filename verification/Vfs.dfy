/** Mount points and the path cache of kernel/src/fs/vfs.rs. A file system driver is
    represented by its mount's id; whether a driver call succeeds is an argument. */
module Vfs {
  import opened Common
  import opened Paths

  datatype Mount = Mount(path: string, id: nat)
  datatype Target = Target(id: nat, relative: string)

  const MAX_PATH_CACHE_SIZE := 256

  // ---------------------------------------------------------------------------
  // Resolution without the cache

  /** The first mount at or above `p`, or the number of mounts. */
  function FirstUnder(ms: seq<Mount>, p: string): (i: nat)
    ensures i <= |ms| && (forall j :: 0 <= j < i ==> !Under(p, ms[j].path)) && (i < |ms| ==> Under(p, ms[i].path))
  {
    if ms == [] || Under(p, ms[0].path) then 0 else 1 + FirstUnder(ms[1..], p)
  }

  /** The first mount with exactly this path, or the number of mounts. */
  function Position(ms: seq<Mount>, p: string): (i: nat)
    ensures i <= |ms| && (forall j :: 0 <= j < i ==> ms[j].path != p) && (i < |ms| ==> ms[i].path == p)
  {
    if ms == [] || ms[0].path == p then 0 else 1 + Position(ms[1..], p)
  }

  function Below(m: Mount, p: string): Target
    requires Under(p, m.path)
  {
    Target(m.id, if p == m.path then "/" else p[|m.path|..])
  }

  /** The two loops of resolve_path on a normalised path. */
  function Resolve(ms: seq<Mount>, p: string): Option<Target> {
    var i, root := FirstUnder(ms, p), Position(ms, "/");
    if i < |ms| then Some(Below(ms[i], p))
    else if root < |ms| then Some(Target(ms[root].id, p))
    else None
  }

  // ---------------------------------------------------------------------------
  // Longest component prefix

  /** Mount `i` has the most components among the mounts at or above the path. */
  ghost predicate Longest(ms: seq<Mount>, cs: seq<string>, i: nat) {
    && i < |ms| && Components(ms[i].path) <= cs
    && forall j :: 0 <= j < |ms| && Components(ms[j].path) <= cs ==>
         |Components(ms[j].path)| <= |Components(ms[i].path)|
  }

  /** Mounts are normalised, different, and sorted by descending path length. */
  ghost predicate Sorted(ms: seq<Mount>) {
    && (forall i :: 0 <= i < |ms| ==> Normalize(ms[i].path) == ms[i].path)
    && (forall i, j :: 0 <= i < j < |ms| ==> |ms[i].path| >= |ms[j].path|)
    && (forall i, j :: 0 <= i < j < |ms| ==> ms[i].path != ms[j].path && ms[i].id != ms[j].id)
  }

  lemma {:induction false} FlatGrows(ds: seq<string>, cs: seq<string>)
    requires ds <= cs && ds != cs
    ensures |Flat(ds)| < |Flat(cs)|
  {
    assert cs == ds + cs[|ds|..];
    FlatOfSum(ds, cs[|ds|..]);
    FlatStarts(cs[|ds|..]);
  }

  /** Under in terms of components, for a mount in normal form. */
  lemma UnderMount(m: Mount, cs: seq<string>)
    requires AllPlain(cs) && Normalize(m.path) == m.path
    ensures Under(Render(cs), m.path) <==>
              Components(m.path) == cs || (Components(m.path) != [] && Components(m.path) <= cs)
  {
    ComponentsArePlain(m.path);
    UnderIsPrefix(cs, Components(m.path));
  }

  /** Of two mounts above a path, the one with more components has the longer path. */
  lemma LongerPath(a: Mount, b: Mount, cs: seq<string>)
    requires Normalize(a.path) == a.path && Normalize(b.path) == b.path
    requires Components(a.path) <= cs && Components(b.path) <= cs
    requires |Components(a.path)| < |Components(b.path)| && Components(a.path) != []
    ensures |a.path| < |b.path|
  {
    hide Components;
    var x, y := Components(a.path), Components(b.path);
    assert x == cs[..|x|] && y == cs[..|y|];
    assert x <= y;
    FlatGrows(x, y);
  }

  /** What remains below a mount is the rest of the components. */
  lemma RestBelow(m: Mount, cs: seq<string>)
    requires AllPlain(cs) && Normalize(m.path) == m.path && Components(m.path) <= cs
    requires Under(Render(cs), m.path)
    ensures Below(m, Render(cs)) == Target(m.id, Render(cs[|Components(m.path)|..]))
    ensures Render(cs) != m.path ==> m.path + Below(m, Render(cs)).relative == Render(cs)
  {
    hide Components;
    var ds := Components(m.path);
    var rest := cs[|ds|..];
    assert cs == ds + rest;
    FlatOfSum(ds, rest);
    UnderMount(m, cs);
    if rest == [] {
      assert ds == cs;
    } else {
      FlatGrows(ds, cs);
      assert Render(cs) == m.path + Flat(rest);
    }
  }

  /** Mounts with different paths have different components. */
  lemma OneRoot(ms: seq<Mount>, i: nat)
    requires Sorted(ms) && i < |ms| && Components(ms[i].path) == []
    ensures ms[i].path == "/" && Position(ms, "/") == i
  {
  }

  lemma NoneLonger(ms: seq<Mount>, cs: seq<string>, i: nat, j: nat)
    requires Sorted(ms) && AllPlain(cs) && i == FirstUnder(ms, Render(cs)) < |ms|
    requires j < |ms| && Components(ms[i].path) <= cs && Components(ms[j].path) <= cs
    ensures |Components(ms[j].path)| <= |Components(ms[i].path)|
  {
    hide Components, Normalize, Under, Render;
    UnderMount(ms[i], cs);
    UnderMount(ms[j], cs);
    if |Components(ms[j].path)| > |Components(ms[i].path)| {
      LongerPath(ms[i], ms[j], cs);
    }
  }

  /** The first match in order of path length is the mount with the most components. */
  lemma FirstIsLongest(ms: seq<Mount>, cs: seq<string>)
    requires Sorted(ms) && AllPlain(cs)
    ensures var i := FirstUnder(ms, Render(cs)); i < |ms| ==> Longest(ms, cs, i)
  {
    hide Components, Normalize, Under, Render;
    var i := FirstUnder(ms, Render(cs));
    if i < |ms| {
      UnderMount(ms[i], cs);
      forall j | 0 <= j < |ms| && Components(ms[j].path) <= cs
        ensures |Components(ms[j].path)| <= |Components(ms[i].path)|
      {
        NoneLonger(ms, cs, i, j);
      }
    }
  }

  /** If nothing matched, only the root mount can be above the path. */
  lemma OnlyRootLeft(ms: seq<Mount>, cs: seq<string>, j: nat)
    requires Sorted(ms) && AllPlain(cs) && FirstUnder(ms, Render(cs)) == |ms|
    requires j < |ms| && Components(ms[j].path) <= cs
    ensures Components(ms[j].path) == [] && Position(ms, "/") == j
  {
    UnderMount(ms[j], cs);
    OneRoot(ms, j);
  }

  lemma LongestIsUnique(ms: seq<Mount>, cs: seq<string>, i: nat, j: nat)
    requires Sorted(ms) && Longest(ms, cs, i) && Longest(ms, cs, j)
    ensures i == j
  {
    hide Components;
    assert Components(ms[i].path) == cs[..|Components(ms[i].path)|];
    assert Components(ms[j].path) == cs[..|Components(ms[j].path)|];
    assert ms[i].path == ms[j].path;
  }

  /** resolve_path finds the mount with the longest component prefix and the rest of the
      path below it; it fails exactly when no mount is above the path. */
  lemma ResolveIsLongest(ms: seq<Mount>, path: string, i: nat)
    requires Sorted(ms)
    ensures var cs := Components(path);
            && (Longest(ms, cs, i) ==>
                  Resolve(ms, Normalize(path)) == Some(Target(ms[i].id, Render(cs[|Components(ms[i].path)|..]))))
            && (Resolve(ms, Normalize(path)) == None <==>
                  forall j :: 0 <= j < |ms| ==> !(Components(ms[j].path) <= cs))
  {
    hide Components, Under, Render, Below;
    ComponentsArePlain(path);
    var cs := Components(path);
    var f := FirstUnder(ms, Render(cs));
    if f < |ms| {
      FirstIsLongest(ms, cs);
      RestBelow(ms[f], cs);
      if Longest(ms, cs, i) {
        LongestIsUnique(ms, cs, i, f);
      }
    } else {
      forall j | 0 <= j < |ms| && Components(ms[j].path) <= cs
        ensures Components(ms[j].path) == [] && Position(ms, "/") == j
      {
        OnlyRootLeft(ms, cs, j);
      }
      var root := Position(ms, "/");
      if root < |ms| {
        RootIsAbove();
        assert Components(ms[root].path) <= cs;
      }
      assert cs[0..] == cs;
    }
  }

  lemma RootIsAbove()
    ensures Components("/") == []
  {
    SplitSlash();
  }

  // ---------------------------------------------------------------------------
  // Rebuilding the path

  lemma {:induction false} ReduceSkipsEmpty(pieces: seq<string>)
    ensures Reduce([""] + pieces) == Reduce(pieces)
  {
    var all := [""] + pieces;
    if pieces == [] {
      assert all[..0] == [];
    } else {
      ReduceSkipsEmpty(pieces[..|pieces| - 1]);
      assert all[..|all| - 1] == [""] + pieces[..|pieces| - 1];
    }
  }

  /** Extra slashes before or after a path do not matter. */
  lemma SlashesDoNotMatter(p: string)
    ensures Normalize("/" + p) == Normalize(p) && Normalize(p + "/") == Normalize(p)
  {
    assert "/" + p == "" + "/" + p;
    SplitAround("", p);
    ReduceSkipsEmpty(Split(p));
    assert p + "/" == p + "/" + "";
    SplitAround(p, "");
    var all := Split(p) + [""];
    assert all[..|all| - 1] == Split(p);
  }

  /** The mount path followed by the relative path names the resolved path, and is it letter
      for letter unless the mount is the root or the path itself. */
  lemma TargetRebuildsPath(ms: seq<Mount>, path: string, i: nat)
    requires Sorted(ms) && Longest(ms, Components(path), i)
    ensures var t := Resolve(ms, Normalize(path));
            && t.Some? && t.value.id == ms[i].id
            && Normalize(ms[i].path + t.value.relative) == Normalize(path)
            && (ms[i].path + t.value.relative == Normalize(path) <==>
                  ms[i].path != "/" && ms[i].path != Normalize(path))
  {
    hide Split, Reduce, Flat, Under, Resolve;
    ComponentsArePlain(path);
    ResolveIsLongest(ms, path, i);
    NormalizeIdempotent(path);
    var cs, m := Components(path), ms[i];
    var ds, p := Components(m.path), Render(cs);
    UnderMount(m, cs);
    var t := Resolve(ms, p).value;
    if ds == [] {
      assert cs[0..] == cs;
      SlashesDoNotMatter(p);
    } else {
      RestBelow(m, cs);
      SlashesDoNotMatter(m.path);
      NotRoot(m, cs);
    }
  }

  lemma NotRoot(m: Mount, cs: seq<string>)
    requires Components(m.path) != []
    ensures m.path != "/"
  {
    SplitSlash();
  }

  // ---------------------------------------------------------------------------
  // The manager

  /** push then a stable sort by descending length, on a list that is already sorted. */
  function Inserted(ms: seq<Mount>, m: Mount): seq<Mount> {
    if ms == [] || |ms[|ms| - 1].path| >= |m.path| then ms + [m]
    else Inserted(ms[..|ms| - 1], m) + [ms[|ms| - 1]]
  }

  lemma {:induction false} InsertedHas(ms: seq<Mount>, m: Mount)
    ensures |Inserted(ms, m)| == |ms| + 1 && m in Inserted(ms, m)
    ensures forall x :: x in ms ==> x in Inserted(ms, m)
    ensures forall x :: x in Inserted(ms, m) ==> x == m || x in ms
  {
    if ms != [] && |ms[|ms| - 1].path| < |m.path| {
      InsertedHas(ms[..|ms| - 1], m);
      assert ms == ms[..|ms| - 1] + [ms[|ms| - 1]];
    }
  }

  lemma {:induction false} InsertedSorted(ms: seq<Mount>, m: Mount)
    requires Sorted(ms) && Normalize(m.path) == m.path
    requires forall x :: x in ms ==> x.path != m.path && x.id != m.id
    ensures Sorted(Inserted(ms, m))
  {
    hide Normalize;
    if ms != [] && |ms[|ms| - 1].path| < |m.path| {
      var init, last := ms[..|ms| - 1], ms[|ms| - 1];
      InsertedSorted(init, m);
      InsertedHas(init, m);
      AppendSorted(Inserted(init, m), last, ms, m);
    }
  }

  lemma AppendSorted(front: seq<Mount>, last: Mount, ms: seq<Mount>, m: Mount)
    requires Sorted(front) && Sorted(ms) && ms != [] && last == ms[|ms| - 1] && |last.path| < |m.path|
    requires forall x :: x in front ==> x == m || x in ms[..|ms| - 1]
    requires forall x :: x in ms ==> x.path != m.path && x.id != m.id
    ensures Sorted(front + [last])
  {
    hide Normalize;
    forall i | 0 <= i < |front|
      ensures |front[i].path| >= |last.path| && front[i].path != last.path && front[i].id != last.id
    {
      assert front[i] in front;
    }
  }

  /** The list of recent paths holds each cached path once. */
  ghost predicate Tracks(cache: map<string, Target>, lru: seq<string>) {
    NoDup(lru) && |lru| <= MAX_PATH_CACHE_SIZE && (forall p :: p in cache <==> p in lru)
  }

  /** Every cached answer is the uncached one. */
  ghost predicate Coherent(ms: seq<Mount>, cache: map<string, Target>) {
    forall p :: p in cache ==> Resolve(ms, p) == Some(cache[p])
  }

  /** Mounting at a new path. */
  lemma MountKeepsSorted(ms: seq<Mount>, m: Mount, path: string)
    requires Sorted(ms) && m.path == Normalize(path) && Position(ms, m.path) == |ms|
    requires forall x :: x in ms ==> x.id < m.id
    ensures Sorted(Inserted(ms, m)) && forall x :: x in Inserted(ms, m) ==> x.id <= m.id
    ensures forall x :: x in ms ==> x.path != m.path
  {
    hide Normalize, Inserted;
    NormalizeIdempotent(path);
    InsertedSorted(ms, m);
    InsertedHas(ms, m);
  }

  // ---------------------------------------------------------------------------
  // Removing a mount

  lemma FirstUnderIs(ms: seq<Mount>, p: string, i: nat)
    requires i <= |ms| && (forall j :: 0 <= j < i ==> !Under(p, ms[j].path)) && (i < |ms| ==> Under(p, ms[i].path))
    ensures FirstUnder(ms, p) == i
  {
    hide Under;
    var f := FirstUnder(ms, p);
    assert f < i ==> false;
    assert i < f ==> false;
  }

  lemma PositionIs(ms: seq<Mount>, p: string, i: nat)
    requires i <= |ms| && (forall j :: 0 <= j < i ==> ms[j].path != p) && (i < |ms| ==> ms[i].path == p)
    ensures Position(ms, p) == i
  {
    var f := Position(ms, p);
    assert f < i ==> false;
    assert i < f ==> false;
  }

  /** An answer by another mount stays when a mount goes. */
  lemma ResolveWithout(ms: seq<Mount>, k: nat, p: string)
    requires k < |ms| && Resolve(ms, p).Some? && Resolve(ms, p).value.id != ms[k].id
    ensures Resolve(Without(ms, k), p) == Resolve(ms, p)
  {
    hide Under, Below, FirstUnder, Position;
    var less := Without(ms, k);
    var f, root := FirstUnder(ms, p), Position(ms, "/");
    assert f != k by {
      if f == k {
        BelowHasId(ms[k], p);
      }
    }
    FirstUnderIs(less, p, if f < k then f else f - 1);
    if f == |ms| {
      PositionIs(less, "/", if root < k then root else root - 1);
    }
  }

  lemma BelowHasId(m: Mount, p: string)
    requires Under(p, m.path)
    ensures Below(m, p).id == m.id
  {
  }

  /** An answer comes from one of the mounts. */
  lemma ResolveNamesMount(ms: seq<Mount>, p: string)
    requires Resolve(ms, p).Some?
    ensures exists m :: m in ms && m.id == Resolve(ms, p).value.id
  {
    var f, root := FirstUnder(ms, p), Position(ms, "/");
    assert f < |ms| ==> ms[f] in ms;
    assert root < |ms| ==> ms[root] in ms;
  }

  lemma WithoutSorted(ms: seq<Mount>, k: nat)
    requires k < |ms| && Sorted(ms)
    ensures Sorted(Without(ms, k)) && forall m :: m in Without(ms, k) ==> m in ms && m.id != ms[k].id
  {
    hide Normalize;
  }

  /** When a mount is removed and the cache is kept, the cache stays right exactly when no
      cached path had been resolved to that mount. */
  lemma StaleIff(ms: seq<Mount>, k: nat, cache: map<string, Target>)
    requires k < |ms| && Sorted(ms) && Coherent(ms, cache)
    ensures Coherent(Without(ms, k), cache) <==> forall p :: p in cache ==> cache[p].id != ms[k].id
  {
    hide Resolve, Sorted, Without;
    forall p | p in cache
      ensures Resolve(Without(ms, k), p) == Some(cache[p]) <==> cache[p].id != ms[k].id
    {
      StaleEntryIff(ms, k, p);
    }
  }

  lemma StaleEntryIff(ms: seq<Mount>, k: nat, p: string)
    requires k < |ms| && Sorted(ms) && Resolve(ms, p).Some?
    ensures Resolve(Without(ms, k), p) == Resolve(ms, p) <==> Resolve(ms, p).value.id != ms[k].id
  {
    hide Resolve, Sorted, Without;
    if Resolve(ms, p).value.id != ms[k].id {
      ResolveWithout(ms, k, p);
    } else if Resolve(Without(ms, k), p).Some? {
      ResolveNamesMount(Without(ms, k), p);
      WithoutSorted(ms, k);
    }
  }

  /** A failing driver's unmount leaves a cached path pointing at the removed mount. */
  lemma FailedUnmountIsStale()
    ensures var ms, cache := [Mount("/", 1)], map["/" := Target(1, "/")];
            Coherent(ms, cache) && !Coherent(Without(ms, 0), cache)
  {
    var ms := [Mount("/", 1)];
    assert Without(ms, 0) == [];
    assert Resolve(ms, "/") == Some(Target(1, "/"));
    assert Resolve([], "/") == None;
  }

  // ---------------------------------------------------------------------------
  // The list of recent paths

  lemma TouchTracks(cache: map<string, Target>, lru: seq<string>, k: nat)
    requires Tracks(cache, lru) && k < |lru|
    ensures Tracks(cache, Without(lru, k) + [lru[k]])
  {
    var to := Without(lru, k) + [lru[k]];
    forall p | p in lru
      ensures p in to
    {
      var j :| 0 <= j < |lru| && lru[j] == p;
      assert to[if j < k then j else if j == k then |lru| - 1 else j - 1] == p;
    }
  }

  lemma EvictTracks(cache: map<string, Target>, lru: seq<string>)
    requires Tracks(cache, lru) && lru != []
    ensures Tracks(cache - {lru[0]}, lru[1..])
  {
    forall p | p in lru && p != lru[0]
      ensures p in lru[1..]
    {
      var j :| 0 <= j < |lru| && lru[j] == p;
      assert lru[1..][j - 1] == p;
    }
  }

  lemma AddTracks(cache: map<string, Target>, lru: seq<string>, p: string, t: Target)
    requires Tracks(cache, lru) && p !in cache && |lru| < MAX_PATH_CACHE_SIZE
    ensures Tracks(cache[p := t], lru + [p])
  {
  }

  class VfsManager {
    var mounts: seq<Mount>
    var nextId: nat
    var cache: map<string, Target>
    var lru: seq<string>

    /** What every call keeps. */
    ghost predicate Ok()
      reads this
    {
      Sorted(mounts) && Tracks(cache, lru) && forall m :: m in mounts ==> m.id < nextId
    }

    constructor ()
      ensures Ok() && mounts == [] && Coherent(mounts, cache)
    {
      mounts, nextId, cache, lru := [], 1, map[], [];
    }

    /** Where a mount with this path is, or the number of mounts. */
    method Find(path: string) returns (i: nat)
      ensures i == Position(mounts, path)
    {
      i := 0;
      while i < |mounts| && mounts[i].path != path
        invariant i <= |mounts| && i + Position(mounts[i..], path) == Position(mounts, path)
      {
        assert mounts[i..][1..] == mounts[i + 1..];
        i := i + 1;
      }
    }

    method MountAt(path: string, driverOk: bool) returns (ok: bool)
      requires Ok()
      modifies this
      ensures Ok() && (old(Coherent(mounts, cache)) ==> Coherent(mounts, cache))
      ensures ok <==> driverOk && forall m :: m in old(mounts) ==> m.path != Normalize(path)
      ensures ok ==> mounts == Inserted(old(mounts), Mount(Normalize(path), old(nextId))) && cache == map[]
      ensures !ok ==> mounts == old(mounts) && cache == old(cache) && lru == old(lru)
    {
      hide Normalize, Resolve, Sorted, Inserted, Position;
      var p := NormalizePath(path);
      if !driverOk {
        return false;
      }
      var m := Mount(p, nextId);
      nextId := nextId + 1;
      var at := Find(p);
      if at < |mounts| {
        assert mounts[at] in mounts;
        return false;
      }
      MountKeepsSorted(mounts, m, path);
      mounts := Inserted(mounts, m);
      cache, lru := map[], [];
      return true;
    }

    /** unmount takes the mount out before it asks the driver; a driver's error returns
        without clearing the cache. */
    method Unmount(path: string, driverOk: bool) returns (ok: bool)
      requires Ok()
      modifies this
      ensures Ok() && nextId == old(nextId)
      ensures ok <==> driverOk && Position(old(mounts), Normalize(path)) < |old(mounts)|
      ensures ok ==> cache == map[] && Coherent(mounts, cache)
      ensures mounts == var k := Position(old(mounts), Normalize(path));
                        if k < |old(mounts)| then Without(old(mounts), k) else old(mounts)
      ensures !ok ==> cache == old(cache) && lru == old(lru)
      ensures old(Coherent(mounts, cache)) && !ok ==>
                (Coherent(mounts, cache) <==>
                   forall k, p :: 0 <= k < |old(mounts)| && old(mounts)[k].path == Normalize(path) && p in cache ==>
                     cache[p].id != old(mounts)[k].id)
    {
      hide Normalize, Resolve, Sorted, Coherent, Tracks, Without;
      var p := NormalizePath(path);
      var at := Find(p);
      if at == |mounts| {
        return false;
      }
      UnmountFacts(mounts, at, cache, p);
      mounts := Without(mounts, at);
      if !driverOk {
        return false;
      }
      cache, lru := map[], [];
      EmptyCache(mounts);
      return true;
    }

    /** cache_insert: the oldest entry makes room. */
    method CacheInsert(p: string, t: Target)
      requires Ok() && p !in cache
      modifies `cache, `lru
      ensures Ok() && p in cache && cache[p] == t
      ensures forall q :: q in cache && q != p ==> q in old(cache) && cache[q] == old(cache)[q]
      ensures |old(lru)| < MAX_PATH_CACHE_SIZE ==> cache == old(cache)[p := t]
      ensures lru == (if |old(lru)| < MAX_PATH_CACHE_SIZE then old(lru) else old(lru)[1..]) + [p]
    {
      hide Sorted;
      while |lru| >= MAX_PATH_CACHE_SIZE
        invariant Ok() && p !in cache
        invariant forall q :: q in cache ==> q in old(cache) && cache[q] == old(cache)[q]
        invariant |old(lru)| < MAX_PATH_CACHE_SIZE ==> cache == old(cache)
        invariant lru == old(lru) || (|old(lru)| == MAX_PATH_CACHE_SIZE && lru == old(lru)[1..])
        decreases |lru|
      {
        EvictTracks(cache, lru);
        cache, lru := cache - {lru[0]}, lru[1..];
      }
      AddTracks(cache, lru, p, t);
      cache, lru := cache[p := t], lru + [p];
    }

    /** resolve_path: the cached answer is the uncached one. */
    method ResolvePath(path: string) returns (r: Option<Target>)
      requires Ok() && Coherent(mounts, cache)
      modifies `cache, `lru
      ensures Ok() && Coherent(mounts, cache)
      ensures r == Resolve(mounts, Normalize(path))
      ensures r.Some? ==> lru != [] && lru[|lru| - 1] == Normalize(path)
      ensures r.None? ==> cache == old(cache) && lru == old(lru)
    {
      hide Normalize, Sorted, Under, Position, Below;
      var p := NormalizePath(path);
      if p in cache {
        var k := Recent(p);
        TouchTracks(cache, lru, k);
        lru := Without(lru, k) + [p];
        return Some(cache[p]);
      }
      var i := 0;
      while i < |mounts| && !Under(p, mounts[i].path)
        invariant i <= |mounts| && forall j :: 0 <= j < i ==> !Under(p, mounts[j].path)
      {
        i := i + 1;
      }
      FirstUnderIs(mounts, p, i);
      if i < |mounts| {
        r := Some(Below(mounts[i], p));
        CacheInsert(p, r.value);
        return;
      }
      var root := Find("/");
      if root < |mounts| {
        r := Some(Target(mounts[root].id, p));
        CacheInsert(p, r.value);
        return;
      }
      return None;
    }

    /** Where a cached path stands in the list of recent paths. */
    method Recent(p: string) returns (k: nat)
      requires Tracks(cache, lru) && p in cache
      ensures k < |lru| && lru[k] == p
    {
      k := 0;
      while lru[k] != p
        invariant k < |lru| && p in lru[k..]
        decreases |lru| - k
      {
        assert lru[k..] == [lru[k]] + lru[k + 1..];
        k := k + 1;
      }
    }
  }

  lemma EmptyCache(ms: seq<Mount>)
    ensures Coherent(ms, map[]) && Tracks(map[], [])
  {
  }

  lemma UnmountFacts(ms: seq<Mount>, k: nat, cache: map<string, Target>, p: string)
    requires k < |ms| && Sorted(ms) && ms[k].path == p
    ensures Sorted(Without(ms, k)) && forall m :: m in Without(ms, k) ==> m in ms
    ensures forall j :: 0 <= j < |ms| && ms[j].path == p ==> j == k
    ensures Coherent(ms, cache) ==>
              (Coherent(Without(ms, k), cache) <==> forall q :: q in cache ==> cache[q].id != ms[k].id)
  {
    hide Normalize, Resolve, Coherent, Without;
    WithoutSorted(ms, k);
    if Coherent(ms, cache) {
      StaleIff(ms, k, cache);
    }
  }
}
