/** The cache of one size class in kernel/src/memory/slab.rs, run sequentially: slabs on a
    partial and a full list, both linked through the slab headers. */
module SlabCache {
  import opened Common
  import opened SlabPages

  // ---------------------------------------------------------------------------
  // Slab lists

  /** The chain of `next` fields from `head` runs through exactly these slabs. */
  ghost predicate Chain(hs: map<nat, Header>, head: nat, s: seq<nat>)
    decreases s
  {
    if s == [] then head == 0
    else head == s[0] && head > 0 && head in hs && Chain(hs, hs[head].next, s[1..])
  }

  lemma {:induction false} ChainIn(hs: map<nat, Header>, head: nat, s: seq<nat>)
    requires Chain(hs, head, s)
    ensures forall p :: p in s ==> p in hs && p > 0
    decreases s
  {
    if s != [] {
      ChainIn(hs, hs[head].next, s[1..]);
      assert s == [s[0]] + s[1..];
    }
  }

  lemma {:induction false} ChainFrame(hs: map<nat, Header>, more: map<nat, Header>, head: nat, s: seq<nat>)
    requires Chain(hs, head, s)
    requires forall p :: p in s ==> p in hs && p in more && hs[p].next == more[p].next
    ensures Chain(more, head, s)
    decreases s
  {
    if s != [] {
      assert head in s;
      ChainFrame(hs, more, hs[head].next, s[1..]);
    }
  }

  /** The chain from the k-th slab on. */
  lemma {:induction false} ChainFrom(hs: map<nat, Header>, head: nat, s: seq<nat>, k: nat)
    requires Chain(hs, head, s) && k < |s|
    ensures s[k] in hs && Chain(hs, s[k], s[k..]) && Chain(hs, hs[s[k]].next, s[k + 1..])
    decreases k
  {
    if k > 0 {
      ChainFrom(hs, hs[head].next, s[1..], k - 1);
      assert s[1..][k - 1..] == s[k..] && s[1..][k..] == s[k + 1..];
    }
  }

  /** Two chains that meet: a prefix of one ending in front of the other. */
  lemma {:induction false} ChainJoin(hs: map<nat, Header>, head: nat, s: seq<nat>, at: nat, t: seq<nat>)
    requires Chain(hs, at, t) && s != [] && s[|s| - 1] in hs && hs[s[|s| - 1]].next == at
    requires forall i :: 0 <= i < |s| ==> s[i] in hs && s[i] > 0
    requires forall i :: 0 <= i < |s| - 1 ==> hs[s[i]].next == s[i + 1]
    requires head == s[0]
    ensures Chain(hs, head, s + t)
    decreases s
  {
    assert (s + t)[1..] == s[1..] + t;
    if |s| > 1 {
      ChainJoin(hs, hs[head].next, s[1..], at, t);
    } else {
      assert s[1..] + t == t;
    }
  }

  lemma {:induction false} ChainNext(hs: map<nat, Header>, head: nat, s: seq<nat>, i: nat)
    requires Chain(hs, head, s) && i + 1 < |s|
    ensures s[i] in hs && hs[s[i]].next == s[i + 1]
  {
    ChainFrom(hs, head, s, i);
  }

  /** The headers after the slab behind `prev` was taken out of its list. */
  function Bypassed(hs: map<nat, Header>, prev: nat, slab: nat): map<nat, Header>
    requires prev in hs && slab in hs
  {
    hs[prev := hs[prev].(next := hs[slab].next)]
  }

  lemma BypassChain(hs: map<nat, Header>, head: nat, s: seq<nat>, k: nat)
    requires Chain(hs, head, s) && NoDup(s) && 0 < k < |s|
    ensures s[k - 1] in hs && s[k] in hs
    ensures Chain(Bypassed(hs, s[k - 1], s[k]), head, Without(s, k))
  {
    ChainIn(hs, head, s);
    ChainFrom(hs, head, s, k);
    var more := Bypassed(hs, s[k - 1], s[k]);
    ChainFrame(hs, more, hs[s[k]].next, s[k + 1..]);
    forall i | 0 <= i < k - 1
      ensures more[s[i]].next == s[i + 1]
    {
      ChainNext(hs, head, s, i);
    }
    ChainJoin(more, head, s[..k], hs[s[k]].next, s[k + 1..]);
  }

  /** The headers after the j-th slab of `s` was taken out and put in front of another list. */
  function Relinked(hs: map<nat, Header>, s: seq<nat>, j: nat, otherHead: nat): map<nat, Header>
    requires j < |s| && s[j] in hs && (j > 0 ==> s[j - 1] in hs)
  {
    var out := if j == 0 then hs else Bypassed(hs, s[j - 1], s[j]);
    out[s[j] := out[s[j]].(next := otherHead)]
  }

  /** Only the links changed. */
  ghost predicate SameSlabs(hs: map<nat, Header>, more: map<nat, Header>) {
    hs.Keys == more.Keys && forall p :: p in hs ==> hs[p].(next := 0) == more[p].(next := 0)
  }

  lemma RelinkChains(hs: map<nat, Header>, head: nat, s: seq<nat>, j: nat, otherHead: nat, other: seq<nat>)
    requires Chain(hs, head, s) && Chain(hs, otherHead, other) && NoDup(s + other) && j < |s|
    ensures s[j] in hs && (j > 0 ==> s[j - 1] in hs)
    ensures var more := Relinked(hs, s, j, otherHead);
            && Chain(more, if j == 0 then hs[s[0]].next else head, Without(s, j))
            && Chain(more, s[j], [s[j]] + other)
            && SameSlabs(hs, more)
  {
    ChainIn(hs, head, s);
    ChainIn(hs, otherHead, other);
    Apart(s, other);
    var more := Relinked(hs, s, j, otherHead);
    ChainFrame(hs, more, otherHead, other);
    assert ([s[j]] + other)[1..] == other;
    if j == 0 {
      ChainFrom(hs, head, s, 0);
      ChainFrame(hs, more, hs[s[0]].next, s[1..]);
      assert Without(s, 0) == s[1..];
    } else {
      BypassChain(hs, head, s, j);
      ChainFrame(Bypassed(hs, s[j - 1], s[j]), more, head, Without(s, j));
    }
  }

  lemma Apart(s: seq<nat>, t: seq<nat>)
    requires NoDup(s + t)
    ensures NoDup(s) && NoDup(t) && forall x :: x in s ==> x !in t
  {
    forall i, j | 0 <= i < j < |s|
      ensures s[i] != s[j]
    {
      assert (s + t)[i] != (s + t)[j];
    }
    forall i, j | 0 <= i < j < |t|
      ensures t[i] != t[j]
    {
      assert (s + t)[|s| + i] != (s + t)[|s| + j];
    }
    forall i, j | 0 <= i < |s| && 0 <= j < |t|
      ensures s[i] != t[j]
    {
      assert (s + t)[i] != (s + t)[|s| + j];
    }
  }

  lemma Joined(s: seq<nat>, t: seq<nat>)
    requires NoDup(s) && NoDup(t) && forall x :: x in s ==> x !in t
    ensures NoDup(s + t)
  {
    var st := s + t;
    forall i, j | 0 <= i < j < |st|
      ensures st[i] != st[j]
    {
      assert i < |s| ==> st[i] in s;
      assert j >= |s| ==> st[j] in t;
    }
  }

  // ---------------------------------------------------------------------------
  // The state of a cache

  /** The memory of a cache, with the lists and free objects it represents. */
  datatype Cache = Cache(
    size: nat, headers: map<nat, Header>, words: map<nat, nat>, partialHead: nat, fullHead: nat,
    partial: seq<nat>, full: seq<nat>, frees: map<nat, seq<nat>>)

  /** Every slab is on exactly one list. */
  ghost predicate ListsOk(c: Cache) {
    && Chain(c.headers, c.partialHead, c.partial) && Chain(c.headers, c.fullHead, c.full)
    && NoDup(c.partial + c.full)
    && (forall p :: p in c.headers <==> p in c.partial || p in c.full)
  }

  /** In every slab the free list and the count add up to the objects of the page. */
  ghost predicate SlabsOk(c: Cache) {
    && SizeClass(c.size) && c.frees.Keys == c.headers.Keys
    && forall p :: p in c.headers ==> SlabOk(c.size, p, c.headers[p], c.words, c.frees[p])
  }

  /** Slabs on the full list are full. */
  ghost predicate FullOk(c: Cache) {
    forall p :: p in c.full && p in c.frees ==> c.frees[p] == []
  }

  ghost predicate Inv(c: Cache) { ListsOk(c) && SlabsOk(c) && FullOk(c) }

  /** An object that was handed out. */
  ghost predicate IsLive(c: Cache, a: nat) {
    && SizeClass(c.size) && PageOf(a) in c.headers && PageOf(a) in c.frees
    && IsObject(c.size, PageOf(a), a) && a !in c.frees[PageOf(a)]
  }

  /** Live objects are aligned, behind the header, inside their page and apart. */
  lemma LiveApart(c: Cache, a: nat, b: nat)
    requires SlabsOk(c) && IsLive(c, a) && IsLive(c, b)
    ensures a % c.size == 0 && PageOf(a) + HEADER <= a && a + c.size <= PageOf(a) + PAGE
    ensures a != b ==> a + c.size <= b || b + c.size <= a
  {
    hide IsObject, Linked, Total;
    ObjectPlace(c.size, PageOf(a), a);
    if a != b {
      ObjectsDisjoint(c.size, PageOf(a), a, PageOf(b), b);
    }
  }

  /** A free object belongs to the page its slab is. */
  lemma FreePage(c: Cache, p: nat, a: nat)
    requires SlabsOk(c) && p in c.headers && a in c.frees[p]
    ensures PageOf(a) == p && IsObject(c.size, p, a)
  {
    hide IsObject, Linked, Total;
    ObjectPlace(c.size, p, a);
  }

  // ---------------------------------------------------------------------------
  // Steps

  /** Slab::alloc on slab `p`. */
  ghost function TakenFrom(c: Cache, p: nat): Cache
    requires p in c.headers && p in c.frees && c.frees[p] != [] && c.headers[p].free in c.words
  {
    c.(headers := c.headers[p := Popped(c.headers[p], c.words)], frees := c.frees[p := c.frees[p][1..]])
  }

  lemma TakeKeeps(c: Cache, p: nat)
    requires ListsOk(c) && SlabsOk(c) && FullOk(c) && p in c.headers && c.frees[p] != []
    ensures c.headers[p].free in c.words
    ensures Inv(TakenFrom(c, p)) && IsLive(TakenFrom(c, p), c.headers[p].free) && !IsLive(c, c.headers[p].free)
    ensures forall a :: a != c.headers[p].free ==> (IsLive(TakenFrom(c, p), a) <==> IsLive(c, a))
  {
    hide IsObject, Linked, Total, Chain, NoDup, PageOf;
    PopKeeps(c.size, p, c.headers[p], c.words, c.frees[p]);
    var d, a := TakenFrom(c, p), c.headers[p].free;
    assert a in c.frees[p];
    FreePage(c, p, a);
    TakeLists(c, d, p);
    assert c.frees[p] == [a] + c.frees[p][1..];
  }

  /** Counts and free lists do not matter to the slab lists. */
  lemma TakeLists(c: Cache, d: Cache, p: nat)
    requires ListsOk(c) && SameLinks(c.headers, d.headers)
    requires d.partialHead == c.partialHead && d.fullHead == c.fullHead && d.partial == c.partial && d.full == c.full
    ensures ListsOk(d)
  {
    ChainIn(c.headers, c.partialHead, c.partial);
    ChainIn(c.headers, c.fullHead, c.full);
    ChainFrame(c.headers, d.headers, c.partialHead, c.partial);
    ChainFrame(c.headers, d.headers, c.fullHead, c.full);
  }

  ghost predicate SameLinks(hs: map<nat, Header>, more: map<nat, Header>) {
    hs.Keys == more.Keys && forall p :: p in hs ==> hs[p].next == more[p].next
  }

  /** Slab::free of object `a`. */
  ghost function GivenBack(c: Cache, a: nat): Cache
    requires PageOf(a) in c.headers && PageOf(a) in c.frees && c.headers[PageOf(a)].count > 0
  {
    var p := PageOf(a);
    c.(headers := c.headers[p := Pushed(c.headers[p], a)], words := c.words[a := c.headers[p].free],
       frees := c.frees[p := [a] + c.frees[p]])
  }

  lemma GiveKeeps(c: Cache, a: nat)
    requires ListsOk(c) && SlabsOk(c) && IsLive(c, a)
    ensures c.headers[PageOf(a)].count > 0
    ensures ListsOk(GivenBack(c, a)) && SlabsOk(GivenBack(c, a)) && !IsLive(GivenBack(c, a), a)
    ensures forall b :: b != a ==> (IsLive(GivenBack(c, a), b) <==> IsLive(c, b))
  {
    hide IsObject, Linked, Total, Chain, NoDup, PageOf;
    var p := PageOf(a);
    PushKeeps(c.size, p, c.headers[p], c.words, c.frees[p], a);
    var d := GivenBack(c, a);
    TakeLists(c, d, p);
    forall q | q in d.headers
      ensures SlabOk(d.size, q, d.headers[q], d.words, d.frees[q])
    {
      if q != p {
        assert a !in c.frees[q] by {
          if a in c.frees[q] {
            FreePage(c, q, a);
          }
        }
        OtherWords(c.size, q, c.headers[q], c.words, c.frees[q], a, c.headers[p].free);
      }
    }
  }

  const WORD := 8

  /** Words that lie outside object `a` read as before. */
  ghost predicate OutsideObject(size: nat, a: nat, words: map<nat, nat>, more: map<nat, nat>) {
    forall y :: y in words && (y + WORD <= a || a + size <= y) ==> y in more && more[y] == words[y]
  }

  /** Whatever a client stores inside a live object, the cache is kept. */
  lemma StoreKeeps(c: Cache, a: nat, words: map<nat, nat>)
    requires Inv(c) && IsLive(c, a) && OutsideObject(c.size, a, c.words, words)
    ensures Inv(c.(words := words))
  {
    hide IsObject, Linked, Total, Chain, NoDup, PageOf;
    forall q | q in c.headers
      ensures SlabOk(c.size, q, c.headers[q], words, c.frees[q])
    {
      StoreKeepsSlab(c, a, words, q);
    }
  }

  lemma StoreKeepsSlab(c: Cache, a: nat, words: map<nat, nat>, q: nat)
    requires SlabsOk(c) && IsLive(c, a) && OutsideObject(c.size, a, c.words, words) && q in c.headers
    ensures SlabOk(c.size, q, c.headers[q], words, c.frees[q])
  {
    hide IsObject, Total, PageOf;
    LinkedIn(c.words, c.headers[q].free, c.frees[q]);
    forall f | f in c.frees[q]
      ensures f in words && words[f] == c.words[f]
    {
      FreePage(c, q, f);
      ObjectsDisjoint(c.size, q, f, PageOf(a), a);
    }
    LinkedFrame(c.words, words, c.headers[q].free, c.frees[q]);
  }

  /** move_to_full of the j-th partial slab. */
  ghost function ToFull(c: Cache, j: nat): Cache
    requires j < |c.partial| && c.partial[j] in c.headers && (j > 0 ==> c.partial[j - 1] in c.headers)
  {
    c.(headers := Relinked(c.headers, c.partial, j, c.fullHead),
       partialHead := if j == 0 then c.headers[c.partial[0]].next else c.partialHead,
       fullHead := c.partial[j], partial := Without(c.partial, j), full := [c.partial[j]] + c.full)
  }

  /** move_to_partial of the j-th full slab. */
  ghost function ToPartial(c: Cache, j: nat): Cache
    requires j < |c.full| && c.full[j] in c.headers && (j > 0 ==> c.full[j - 1] in c.headers)
  {
    c.(headers := Relinked(c.headers, c.full, j, c.partialHead),
       fullHead := if j == 0 then c.headers[c.full[0]].next else c.fullHead,
       partialHead := c.full[j], full := Without(c.full, j), partial := [c.full[j]] + c.partial)
  }

  lemma MovedLists(s: seq<nat>, t: seq<nat>, j: nat)
    requires NoDup(s + t) && j < |s|
    ensures NoDup(Without(s, j) + ([s[j]] + t)) && NoDup(([s[j]] + t) + Without(s, j))
    ensures forall p :: p in s || p in t <==> p in Without(s, j) || p in [s[j]] + t
    ensures forall p :: p in Without(s, j) ==> p in s && p != s[j]
  {
    Apart(s, t);
    var rest := Without(s, j);
    assert forall p :: p in rest ==> p in s && p != s[j];
    forall p | p in s && p != s[j]
      ensures p in rest
    {
      var i :| 0 <= i < |s| && s[i] == p;
      assert rest[if i < j then i else i - 1] == p;
    }
    Joined([s[j]], t);
    Joined(rest, [s[j]] + t);
    Joined([s[j]] + t, rest);
  }

  lemma SlabsSurvive(c: Cache, d: Cache)
    requires SlabsOk(c) && SameSlabs(c.headers, d.headers)
    requires d.size == c.size && d.words == c.words && d.frees == c.frees
    ensures SlabsOk(d) && forall a :: IsLive(d, a) <==> IsLive(c, a)
  {
    hide IsObject, Linked, Total, NoDup, PageOf;
    forall p | p in d.headers
      ensures SlabOk(d.size, p, d.headers[p], d.words, d.frees[p])
    {
      assert c.headers[p].(next := 0) == d.headers[p].(next := 0);
    }
  }

  lemma ToFullKeeps(c: Cache, j: nat)
    requires Inv(c) && j < |c.partial| && c.partial[j] in c.frees && c.frees[c.partial[j]] == []
    ensures c.partial[j] in c.headers && (j > 0 ==> c.partial[j - 1] in c.headers)
    ensures Inv(ToFull(c, j)) && forall a :: IsLive(ToFull(c, j), a) <==> IsLive(c, a)
  {
    hide SlabOk, Chain, NoDup, IsLive;
    RelinkChains(c.headers, c.partialHead, c.partial, j, c.fullHead, c.full);
    MovedLists(c.partial, c.full, j);
    SlabsSurvive(c, ToFull(c, j));
  }

  lemma ToPartialKeeps(c: Cache, j: nat)
    requires ListsOk(c) && SlabsOk(c) && j < |c.full|
    requires forall p :: p in c.full && p in c.frees && p != c.full[j] ==> c.frees[p] == []
    ensures c.full[j] in c.headers && (j > 0 ==> c.full[j - 1] in c.headers)
    ensures Inv(ToPartial(c, j)) && forall a :: IsLive(ToPartial(c, j), a) <==> IsLive(c, a)
  {
    hide SlabOk, Chain, IsLive, NoDup, Without, Relinked;
    Swap(c.partial, c.full);
    RelinkChains(c.headers, c.fullHead, c.full, j, c.partialHead, c.partial);
    MovedLists(c.full, c.partial, j);
    SlabsSurvive(c, ToPartial(c, j));
  }

  lemma Swap(s: seq<nat>, t: seq<nat>)
    requires NoDup(s + t)
    ensures NoDup(t + s)
  {
    Apart(s, t);
    Joined(t, s);
  }

  // ---------------------------------------------------------------------------
  // A new slab

  /** The first `n` objects of a slab, last one first. */
  function Down(size: nat, p: nat, n: nat): (r: seq<nat>)
    requires size > 0
    ensures |r| == n
  {
    if n == 0 then [] else [p + Start(size) + (n - 1) * size] + Down(size, p, n - 1)
  }

  lemma {:induction false} DownAt(size: nat, p: nat, n: nat, i: nat)
    requires size > 0 && i < n
    ensures Down(size, p, n)[i] == p + Start(size) + (n - 1 - i) * size
    decreases n
  {
    if i > 0 {
      DownAt(size, p, n - 1, i - 1);
    }
  }

  lemma IndexedObject(size: nat, p: nat, i: nat)
    requires SizeClass(size) && i < Total(size)
    ensures IsObject(size, p, p + Start(size) + i * size)
  {
    hide Total, Start;
    Multiple(i, size);
    assert (Total(size) - i) * size > 0;
  }

  /** Together they are all objects, each once. */
  lemma DownIsAll(size: nat, p: nat)
    requires SizeClass(size)
    ensures NoDup(Down(size, p, Total(size)))
    ensures forall a :: a in Down(size, p, Total(size)) <==> IsObject(size, p, a)
  {
    hide Total, Start, Down, IsObject;
    var n := Total(size);
    var all := Down(size, p, n);
    forall i | 0 <= i < n
      ensures all[i] == p + Start(size) + (n - 1 - i) * size && IsObject(size, p, all[i])
    {
      DownAt(size, p, n, i);
      IndexedObject(size, p, n - 1 - i);
    }
    forall i, j | 0 <= i < j < n
      ensures all[i] != all[j]
    {
      assert (j - i) * size > 0;
      assert (n - 1 - i) * size == (n - 1 - j) * size + (j - i) * size;
    }
    forall a: nat | IsObject(size, p, a)
      ensures a in all
    {
      var i := IndexOf(size, p, a);
      assert all[n - 1 - i] == a;
    }
  }

  /** Memory outside a page is as before. */
  ghost predicate OutsideSame(p: nat, words: map<nat, nat>, more: map<nat, nat>) {
    forall a :: a in words && PageOf(a) != p ==> a in more && more[a] == words[a]
  }

  ghost function WithSlab(c: Cache, p: nat, words: map<nat, nat>, head: nat): Cache
    requires SizeClass(c.size)
  {
    c.(headers := c.headers[p := Header(0, head, c.partialHead)], words := words, partialHead := p,
       partial := [p] + c.partial, frees := c.frees[p := Down(c.size, p, Total(c.size))])
  }

  lemma NewKeeps(c: Cache, p: nat, words: map<nat, nat>, head: nat)
    requires Inv(c) && IsPage(p) && p !in c.headers && OutsideSame(p, c.words, words)
    requires Linked(words, head, Down(c.size, p, Total(c.size)))
    ensures Inv(WithSlab(c, p, words, head)) && forall a :: IsLive(WithSlab(c, p, words, head), a) <==> IsLive(c, a)
  {
    hide IsObject, Linked, Total, Chain, NoDup, Down, PageOf;
    var d := WithSlab(c, p, words, head);
    DownIsAll(c.size, p);
    NewLists(c, p, d.headers[p]);
    forall q | q in d.headers
      ensures SlabOk(d.size, q, d.headers[q], d.words, d.frees[q])
    {
      if q != p {
        OutsideSlab(c, p, q, words);
      }
    }
  }

  lemma OutsideSlab(c: Cache, p: nat, q: nat, words: map<nat, nat>)
    requires SlabsOk(c) && p !in c.headers && q in c.headers && OutsideSame(p, c.words, words)
    ensures SlabOk(c.size, q, c.headers[q], words, c.frees[q])
  {
    hide IsObject, Total, PageOf, IsPage;
    LinkedIn(c.words, c.headers[q].free, c.frees[q]);
    forall a | a in c.frees[q]
      ensures a in words && words[a] == c.words[a]
    {
      FreePage(c, q, a);
    }
    LinkedFrame(c.words, words, c.headers[q].free, c.frees[q]);
  }

  lemma NewLists(c: Cache, p: nat, h: Header)
    requires ListsOk(c) && p > 0 && p !in c.headers && h.next == c.partialHead
    ensures var hs := c.headers[p := h];
            Chain(hs, p, [p] + c.partial) && Chain(hs, c.fullHead, c.full) && NoDup([p] + c.partial + c.full)
  {
    hide NoDup;
    var hs := c.headers[p := h];
    ChainIn(c.headers, c.partialHead, c.partial);
    ChainIn(c.headers, c.fullHead, c.full);
    ChainFrame(c.headers, hs, c.partialHead, c.partial);
    ChainFrame(c.headers, hs, c.fullHead, c.full);
    assert ([p] + c.partial)[1..] == c.partial;
    InFront(p, c.partial + c.full);
    assert [p] + c.partial + c.full == [p] + (c.partial + c.full);
  }

  lemma InFront(p: nat, s: seq<nat>)
    requires NoDup(s) && p !in s
    ensures NoDup([p] + s)
  {
  }

  lemma SizeOf(c: Cache)
    requires Inv(c)
    ensures SizeClass(c.size)
  {
  }

  // ---------------------------------------------------------------------------
  // The cache

  class SizeClassCache {
    const size: nat
    var headers: map<nat, Header>
    var words: map<nat, nat>
    var partialHead: nat
    var fullHead: nat
    ghost var partial: seq<nat>
    ghost var full: seq<nat>
    ghost var frees: map<nat, seq<nat>>

    ghost function Value(): Cache
      reads this
    {
      Cache(size, headers, words, partialHead, fullHead, partial, full, frees)
    }

    constructor (objectSize: nat)
      requires SizeClass(objectSize)
      ensures Inv(Value()) && size == objectSize && headers == map[]
    {
      size := objectSize;
      headers, words, partialHead, fullHead := map[], map[], 0, 0;
      partial, full, frees := [], [], map[];
    }

    /** Thread the objects of a new page into a free list. */
    method LinkObjects(p: nat, n: nat) returns (head: nat)
      requires SizeClass(size) && IsPage(p) && n == Total(size)
      modifies `words
      ensures Linked(words, head, Down(size, p, n)) && OutsideSame(p, old(words), words)
    {
      hide Down, Linked, Total, PageOf, OutsideSame, IsPage, Start;
      head := 0;
      EmptyList(p, words);
      for i := 0 to n
        invariant Linked(words, head, Down(size, p, i)) && OutsideSame(p, old(words), words)
      {
        var obj := p + Start(size) + i * size;
        LinkMore(size, p, i, old(words), words, head);
        words := words[obj := head];
        head := obj;
      }
    }

    /** Slab::new on a page of the frame allocator; it gives the page back when not even one
        object fits. */
    method NewSlab(p: nat) returns (ok: bool)
      requires Inv(Value()) && IsPage(p) && p !in headers
      modifies this
      ensures Inv(Value()) && (forall a :: IsLive(Value(), a) <==> old(IsLive(Value(), a)))
      ensures ok <==> Total(size) > 0
      ensures ok ==> headers.Keys == old(headers).Keys + {p} && frees == old(frees)[p := frees[p]]
      ensures ok ==> |frees[p]| == Total(size) && partial == [p] + old(partial)
      ensures !ok ==> Value() == old(Value())
    {
      hide Inv, IsLive, Linked, Total, PageOf, OutsideSame, IsPage, Start, SizeClass;
      SizeOf(Value());
      var n := Total(size);
      if n == 0 {
        return false;
      }
      ghost var was := Value();
      var head := LinkObjects(p, n);
      NewKeeps(was, p, words, head);
      Enlist(p, head);
      return true;
    }

    /** Write the header of a new slab and put it in front of the partial list. */
    method Enlist(p: nat, head: nat)
      requires SizeClass(size)
      modifies `headers, `frees, `partialHead, `partial
      ensures Value() == WithSlab(old(Value()), p, words, head)
    {
      hide Total, Start, Down;
      headers := headers[p := Header(0, head, 0)];
      headers := headers[p := headers[p].(next := partialHead)];
      frees := frees[p := Down(size, p, Total(size))];
      partialHead, partial := p, [p] + partial;
    }

    /** Slab::alloc. */
    method TakeObject(p: nat) returns (r: Option<nat>)
      requires Inv(Value()) && p in headers && p in frees
      modifies `headers, `frees
      ensures r.Some? <==> old(frees[p]) != []
      ensures r.None? ==> Value() == old(Value())
      ensures r.Some? ==> r.value == old(headers[p].free) && r.value in words && Value() == TakenFrom(old(Value()), p)
    {
      hide ListsOk, FullOk, IsObject, Total, NoDup;
      assert SlabOk(size, p, headers[p], words, frees[p]);
      var head := headers[p].free;
      if head == 0 {
        return None;
      }
      headers := headers[p := headers[p].(count := headers[p].count + 1, free := words[head])];
      frees := frees[p := frees[p][1..]];
      return Some(head);
    }

    /** The search and the removal that move_to_full and move_to_partial share. */
    method Unhook(head: nat, slab: nat, ghost s: seq<nat>, ghost j: nat) returns (newHead: nat)
      requires Chain(headers, head, s) && NoDup(s) && j < |s| && s[j] == slab && slab in headers
      requires j > 0 ==> s[j - 1] in headers
      modifies `headers
      ensures headers == if j == 0 then old(headers) else Bypassed(old(headers), s[j - 1], slab)
      ensures newHead == if j == 0 then old(headers)[slab].next else head
    {
      hide Chain;
      var prev, current := 0, head;
      ghost var k := 0;
      ChainFrom(headers, head, s, j);
      FirstOf(headers, head, s);
      while current != slab
        invariant k <= j && current == s[k] && headers == old(headers)
        invariant k > 0 ==> prev > 0 && prev == s[k - 1]
        invariant k == 0 ==> prev == 0
        decreases j - k
      {
        ChainNext(headers, head, s, k);
        FirstOf(headers, head, s);
        prev, current := current, headers[current].next;
        k := k + 1;
      }
      assert k == j;
      newHead := head;
      if prev == 0 {
        newHead := headers[slab].next;
      } else {
        headers := headers[prev := headers[prev].(next := headers[slab].next)];
      }
    }

    method MoveToFull(slab: nat, ghost j: nat)
      requires Inv(Value()) && j < |partial| && partial[j] == slab && slab in frees && frees[slab] == []
      modifies this
      ensures Inv(Value()) && forall a :: IsLive(Value(), a) <==> old(IsLive(Value(), a))
      ensures headers.Keys == old(headers).Keys && frees == old(frees)
    {
      hide SlabsOk, FullOk, Chain, IsLive, NoDup;
      ToFullKeeps(Value(), j);
      ListsApart(Value());
      ghost var to := ToFull(Value(), j);
      partialHead := Unhook(partialHead, slab, partial, j);
      headers := headers[slab := headers[slab].(next := fullHead)];
      fullHead := slab;
      partial, full := Without(partial, j), [slab] + full;
      assert Value() == to;
    }

    method MoveToPartial(slab: nat, ghost j: nat)
      requires ListsOk(Value()) && SlabsOk(Value()) && j < |full| && full[j] == slab
      requires forall p :: p in full && p in frees && p != slab ==> frees[p] == []
      modifies this
      ensures Inv(Value()) && forall a :: IsLive(Value(), a) <==> old(IsLive(Value(), a))
      ensures headers.Keys == old(headers).Keys && frees == old(frees)
    {
      hide SlabsOk, Chain, IsLive, NoDup;
      ToPartialKeeps(Value(), j);
      ListsApart(Value());
      ghost var to := ToPartial(Value(), j);
      fullHead := Unhook(fullHead, slab, full, j);
      headers := headers[slab := headers[slab].(next := partialHead)];
      partialHead := slab;
      full, partial := Without(full, j), [slab] + partial;
      assert Value() == to;
    }

    /** Take an object from the first partial slab that has one. */
    method TakePartial() returns (r: Option<nat>, p: nat, ghost k: nat)
      requires Inv(Value())
      modifies `headers, `frees
      ensures r.None? ==> Value() == old(Value()) && AllTaken(Value())
      ensures r.Some? ==>
                && k < |partial| && p == partial[k] && p in old(headers) && p in old(frees) && old(frees[p]) != []
                && r.value == old(headers[p].free) && r.value in words && Value() == TakenFrom(old(Value()), p)
    {
      hide SlabOk, Chain, NoDup, IsLive;
      p, k := partialHead, 0;
      r := None;
      while p != 0
        invariant k <= |partial| && Chain(headers, p, partial[k..]) && Value() == old(Value())
        invariant forall i :: 0 <= i < k ==> partial[i] in frees && frees[partial[i]] == []
        invariant r.None?
        decreases |partial| - k
      {
        ChainHead(headers, p, partial[k..]);
        r := TakeObject(p);
        if r.Some? {
          return;
        }
        p, k := headers[p].next, k + 1;
      }
      ChainHead(headers, p, partial[k..]);
      NoneLeft(Value());
    }

    /** SizeClassCache::alloc; `frame` is what the frame allocator would give. A new slab is
        made exactly when no slab has a free object. */
    method Alloc(frame: Option<nat>) returns (r: Option<nat>)
      requires Inv(Value()) && (frame.Some? ==> IsPage(frame.value) && frame.value !in headers)
      modifies this
      ensures Inv(Value())
      ensures r.Some? ==> IsLive(Value(), r.value) && !old(IsLive(Value(), r.value))
      ensures forall a: nat :: r != Some(a) ==> (IsLive(Value(), a) <==> old(IsLive(Value(), a)))
      ensures SizeClass(size) && (r.None? <==> old(AllTaken(Value())) && (frame.None? || Total(size) == 0))
      ensures headers.Keys == old(headers).Keys + if r.Some? && old(AllTaken(Value())) then {frame.value} else {}
      ensures r.Some? && old(AllTaken(Value())) ==>
                && partial == [frame.value] + old(partial)
                && frame.value in frees && |frees[frame.value]| == Total(size) - 1
    {
      hide ListsOk, SlabsOk, FullOk, IsLive, IsPage, TakenFrom;
      SizeOf(Value());
      ghost var was := Value();
      var p;
      ghost var k;
      r, p, k := TakePartial();
      if r.Some? {
        TakeKeeps(was, p);
        TakenFacts(was, p);
        if headers[p].count >= Total(size) {
          CountFull(Value(), p);
          MoveToFull(p, k);
        }
        return;
      }
      if frame.None? {
        return;
      }
      var ok := NewSlab(frame.value);
      if !ok {
        return;
      }
      ghost var before := Value();
      KeysAgree(before);
      r := TakeObject(frame.value);
      TakeKeeps(before, frame.value);
      TakenFacts(before, frame.value);
    }

    /** Whether a pointer lies in a slab of the list, and in which. */
    method FindIn(head: nat, a: nat, ghost s: seq<nat>) returns (p: nat, ghost k: nat)
      requires Chain(headers, head, s) && forall q :: q in s ==> IsPage(q)
      ensures p == 0 ==> PageOf(a) !in s
      ensures p != 0 ==> k < |s| && p == s[k] == PageOf(a)
    {
      hide Chain;
      p, k := head, 0;
      while p != 0
        invariant k <= |s| && Chain(headers, p, s[k..]) && PageOf(a) !in s[..k]
        decreases |s| - k
      {
        ChainHead(headers, p, s[k..]);
        assert p in s;
        if p <= a < p + PAGE {
          SamePage(p, a);
          return;
        }
        assert s[..k + 1] == s[..k] + [p];
        p, k := headers[p].next, k + 1;
      }
      ChainHead(headers, p, s[k..]);
      assert s[..k] == s;
    }

    /** SizeClassCache::free of a live object; a pointer into no slab is ignored. */
    method Free(a: nat)
      requires Inv(Value()) && (IsLive(Value(), a) || PageOf(a) !in headers)
      modifies this
      ensures Inv(Value()) && headers.Keys == old(headers).Keys && !IsLive(Value(), a)
      ensures forall b :: b != a ==> (IsLive(Value(), b) <==> old(IsLive(Value(), b)))
      ensures PageOf(a) !in old(headers) ==> Value() == old(Value())
    {
      hide Chain, SlabOk, NoDup, PageOf, IsObject, Total;
      PagesOf(Value());
      var p, k := FindIn(partialHead, a, partial);
      if p != 0 {
        GiveKeeps(Value(), a);
        FreePartial(Value(), a);
        GiveBack(p, a);
        return;
      }
      p, k := FindIn(fullHead, a, full);
      if p != 0 {
        GiveBack(p, a);
        MoveToPartial(p, k);
      }
    }

    /** Slab::free. */
    method GiveBack(p: nat, a: nat)
      requires ListsOk(Value()) && SlabsOk(Value()) && IsLive(Value(), a) && p == PageOf(a)
      modifies `headers, `words, `frees
      ensures headers.Keys == old(headers).Keys && old(headers[p].count) > 0 && Value() == GivenBack(old(Value()), a)
      ensures ListsOk(Value()) && SlabsOk(Value()) && !IsLive(Value(), a)
      ensures forall b :: b != a ==> (IsLive(Value(), b) <==> old(IsLive(Value(), b)))
    {
      hide ListsOk, SlabsOk, PageOf, IsObject;
      GiveKeeps(Value(), a);
      words := words[a := headers[p].free];
      headers := headers[p := headers[p].(count := headers[p].count - 1, free := a)];
      frees := frees[p := [a] + frees[p]];
    }

    /** A client stores anything inside an object it holds. */
    method ClientStore(a: nat, memory: map<nat, nat>)
      requires Inv(Value()) && IsLive(Value(), a) && OutsideObject(size, a, words, memory)
      modifies `words
      ensures Inv(Value()) && words == memory
    {
      hide Inv, IsLive, OutsideObject;
      StoreKeeps(Value(), a, memory);
      words := memory;
    }
  }

  /** No slab has a free object. */
  ghost predicate AllTaken(c: Cache) { forall p :: p in c.frees ==> c.frees[p] == [] }

  lemma ChainHead(hs: map<nat, Header>, p: nat, s: seq<nat>)
    requires Chain(hs, p, s)
    ensures p == 0 <==> s == []
    ensures s != [] ==> p == s[0] && p in hs && Chain(hs, hs[p].next, s[1..])
  {
  }

  lemma NoneLeft(c: Cache)
    requires Inv(c) && forall i :: 0 <= i < |c.partial| ==> c.partial[i] in c.frees && c.frees[c.partial[i]] == []
    ensures AllTaken(c)
  {
    hide SlabOk, Chain, NoDup;
  }

  lemma KeysAgree(c: Cache)
    requires Inv(c)
    ensures c.frees.Keys == c.headers.Keys
  {
  }

  lemma TakenFacts(c: Cache, p: nat)
    requires p in c.headers && p in c.frees && c.frees[p] != [] && c.headers[p].free in c.words
    ensures var d := TakenFrom(c, p);
            && d.headers.Keys == c.headers.Keys && d.frees.Keys == c.frees.Keys
            && !AllTaken(c) && d.partial == c.partial && p in d.frees && |d.frees[p]| == |c.frees[p]| - 1
  {
  }

  /** A slab's counter reaches the total exactly when its free list is empty. */
  lemma CountFull(c: Cache, p: nat)
    requires Inv(c) && p in c.headers && c.headers[p].count >= Total(c.size)
    ensures p in c.frees && c.frees[p] == []
  {
    assert SlabOk(c.size, p, c.headers[p], c.words, c.frees[p]);
  }

  lemma SamePage(p: nat, a: nat)
    requires IsPage(p) && p <= a < p + PAGE
    ensures PageOf(a) == p
  {
  }

  lemma PagesOf(c: Cache)
    requires Inv(c)
    ensures forall p :: p in c.partial || p in c.full ==> IsPage(p) && p in c.headers
  {
    forall p | p in c.headers
      ensures IsPage(p)
    {
      assert SlabOk(c.size, p, c.headers[p], c.words, c.frees[p]);
    }
  }

  /** Freeing into a partial slab keeps the full list full. */
  lemma FreePartial(c: Cache, a: nat)
    requires Inv(c) && IsLive(c, a) && PageOf(a) in c.partial && c.headers[PageOf(a)].count > 0
    ensures FullOk(GivenBack(c, a))
  {
    ListsApart(c);
  }

  lemma FirstOf(hs: map<nat, Header>, head: nat, s: seq<nat>)
    requires Chain(hs, head, s) && s != []
    ensures head == s[0] && forall p :: p in s ==> p in hs && p > 0
  {
    ChainIn(hs, head, s);
  }

  lemma ListsApart(c: Cache)
    requires ListsOk(c)
    ensures NoDup(c.partial) && NoDup(c.full) && forall p :: p in c.partial ==> p !in c.full
  {
    Apart(c.partial, c.full);
  }

  lemma EmptyList(p: nat, words: map<nat, nat>)
    ensures OutsideSame(p, words, words) && forall size: nat :: size > 0 ==> Linked(words, 0, Down(size, p, 0))
  {
  }

  /** One more object in front of the free list of a new slab. */
  lemma LinkMore(size: nat, p: nat, i: nat, was: map<nat, nat>, words: map<nat, nat>, head: nat)
    requires SizeClass(size) && IsPage(p) && i < Total(size)
    requires Linked(words, head, Down(size, p, i)) && OutsideSame(p, was, words)
    ensures var obj := p + Start(size) + i * size;
            Linked(words[obj := head], obj, Down(size, p, i + 1)) && OutsideSame(p, was, words[obj := head])
  {
    hide Total, PageOf, IsPage, Start;
    var obj := p + Start(size) + i * size;
    IndexedObject(size, p, i);
    ObjectPlace(size, p, obj);
    forall j | 0 <= j < i
      ensures Down(size, p, i)[j] != obj
    {
      DownAt(size, p, i, j);
      assert (i - (i - 1 - j)) * size > 0;
    }
    LinkedIn(words, head, Down(size, p, i));
    LinkedFrame(words, words[obj := head], head, Down(size, p, i));
    assert Down(size, p, i + 1)[1..] == Down(size, p, i);
  }
}
