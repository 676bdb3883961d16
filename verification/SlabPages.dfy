/** One slab of kernel/src/memory/slab.rs: a page with a 56-byte header, then objects of one
    size, the free ones linked through their first word. Address 0 is the null pointer. */
module SlabPages {
  import opened Common

  const PAGE := 4096
  const HEADER := 56

  predicate SizeClass(size: nat) { size in {32, 64, 128, 256, 512, 1024, 2048, 4096} }

  /** Where the objects start in their page. */
  function Start(size: nat): nat
    requires size > 0
  {
    AlignUp(HEADER, size)
  }

  /** How many objects fit behind the header. */
  function Total(size: nat): nat
    requires SizeClass(size)
  {
    (PAGE - Start(size)) / size
  }

  predicate IsPage(p: nat) { p > 0 && p % PAGE == 0 }

  function PageOf(a: nat): nat { a - a % PAGE }

  /** `a` is the address of an object of the slab at page `p`. */
  predicate IsObject(size: nat, p: nat, a: nat)
    requires SizeClass(size)
  {
    p + Start(size) <= a < p + Start(size) + Total(size) * size && (a - p - Start(size)) % size == 0
  }

  /** The object counts: one for 2048 bytes, none for 4096. */
  lemma Totals()
    ensures Total(32) == 126 && Total(64) == 63 && Total(128) == 31 && Total(256) == 15
    ensures Total(512) == 7 && Total(1024) == 3 && Total(2048) == 1 && Total(4096) == 0
  {
  }

  /** A page holds `n` units of the size; the first `skip` of them cover the header. */
  lemma Layout(size: nat) returns (n: nat, skip: nat)
    requires SizeClass(size)
    ensures n * size == PAGE && Start(size) == skip * size && skip * size >= HEADER && Total(size) + skip == n
  {
    n, skip := PAGE / size, Start(size) / size;
  }

  /** Arithmetic with one of the eight sizes. */
  lemma Multiple(k: nat, size: nat)
    requires SizeClass(size)
    ensures (k * size) % size == 0
  {
    if size == 32 {
      assert (k * 32) % 32 == 0;
    } else if size == 64 {
      assert (k * 64) % 64 == 0;
    } else if size == 128 {
      assert (k * 128) % 128 == 0;
    } else if size == 256 {
      assert (k * 256) % 256 == 0;
    } else if size == 512 {
      assert (k * 512) % 512 == 0;
    } else if size == 1024 {
      assert (k * 1024) % 1024 == 0;
    } else if size == 2048 {
      assert (k * 2048) % 2048 == 0;
    } else {
      assert (k * 4096) % 4096 == 0;
    }
  }

  lemma ExactQuotient(x: nat, n: nat, size: nat)
    requires SizeClass(size) && x % size == 0 && x < n * size
    ensures x == (x / size) * size && x / size < n
  {
    if size == 32 {
      assert x == (x / 32) * 32 && x / 32 < n;
    } else if size == 64 {
      assert x == (x / 64) * 64 && x / 64 < n;
    } else if size == 128 {
      assert x == (x / 128) * 128 && x / 128 < n;
    } else if size == 256 {
      assert x == (x / 256) * 256 && x / 256 < n;
    } else if size == 512 {
      assert x == (x / 512) * 512 && x / 512 < n;
    } else if size == 1024 {
      assert x == (x / 1024) * 1024 && x / 1024 < n;
    } else if size == 2048 {
      assert x == (x / 2048) * 2048 && x / 2048 < n;
    } else {
      assert x == (x / 4096) * 4096 && x / 4096 < n;
    }
  }

  /** Objects are aligned to their size, behind the header and inside the page. */
  lemma ObjectPlace(size: nat, p: nat, a: nat)
    requires SizeClass(size) && IsPage(p) && IsObject(size, p, a)
    ensures a % size == 0 && p + HEADER <= a && a + size <= p + PAGE && PageOf(a) == p && a > 0
  {
    hide Start, Total, IsObject, SizeClass;
    var n, skip := Layout(size);
    var m, i := p / PAGE, IndexOf(size, p, a);
    Units(m * n, skip, i, size);
    Assoc(m, n, size);
    Multiple(m * n + skip + i, size);
    RoomFor(n, skip, i, size);
    PageOfInside(p, a);
  }

  lemma PageOfInside(p: nat, a: nat)
    requires p % PAGE == 0 && p <= a < p + PAGE
    ensures PageOf(a) == p
  {
  }

  lemma Assoc(a: int, b: int, c: int)
    ensures a * (b * c) == (a * b) * c
  {
  }

  lemma Units(a: int, b: int, c: int, size: int)
    ensures a * size + b * size + c * size == (a + b + c) * size
  {
  }

  lemma RoomFor(n: nat, skip: nat, i: nat, size: nat)
    requires skip + i < n
    ensures skip * size + i * size + size <= n * size && 0 <= i * size
  {
    NoLess(n - skip - i - 1, size);
    Units(skip, i, 1, size);
    Units(skip + i + 1, n - skip - i - 1, 0, size);
  }

  lemma NoLess(a: nat, b: nat)
    ensures 0 <= a * b
  {
  }

  /** Different objects share no byte. */
  lemma ObjectsDisjoint(size: nat, p: nat, a: nat, q: nat, b: nat)
    requires SizeClass(size) && IsPage(p) && IsPage(q) && IsObject(size, p, a) && IsObject(size, q, b) && a != b
    ensures a + size <= b || b + size <= a
  {
    ObjectPlace(size, p, a);
    ObjectPlace(size, q, b);
    if a < b {
      AlignedApart(size, a, b);
    } else {
      AlignedApart(size, b, a);
    }
  }

  lemma AlignedApart(size: nat, a: nat, b: nat)
    requires SizeClass(size) && a % size == 0 && b % size == 0 && a < b
    ensures a + size <= b
  {
    if size == 32 {
      assert a % 32 == 0 && b % 32 == 0 && a < b ==> a + 32 <= b;
    } else if size == 64 {
      assert a % 64 == 0 && b % 64 == 0 && a < b ==> a + 64 <= b;
    } else if size == 128 {
      assert a % 128 == 0 && b % 128 == 0 && a < b ==> a + 128 <= b;
    } else if size == 256 {
      assert a % 256 == 0 && b % 256 == 0 && a < b ==> a + 256 <= b;
    } else if size == 512 {
      assert a % 512 == 0 && b % 512 == 0 && a < b ==> a + 512 <= b;
    } else if size == 1024 {
      assert a % 1024 == 0 && b % 1024 == 0 && a < b ==> a + 1024 <= b;
    } else if size == 2048 {
      assert a % 2048 == 0 && b % 2048 == 0 && a < b ==> a + 2048 <= b;
    } else {
      assert a % 4096 == 0 && b % 4096 == 0 && a < b ==> a + 4096 <= b;
    }
  }

  // ---------------------------------------------------------------------------
  // Free lists in memory

  /** The chain of words from `head` runs through exactly these addresses. */
  ghost predicate Linked(words: map<nat, nat>, head: nat, s: seq<nat>)
    decreases s
  {
    if s == [] then head == 0
    else head == s[0] && head > 0 && head in words && Linked(words, words[head], s[1..])
  }

  lemma {:induction false} LinkedFrame(words: map<nat, nat>, more: map<nat, nat>, head: nat, s: seq<nat>)
    requires Linked(words, head, s) && forall a :: a in s ==> a in words && a in more && words[a] == more[a]
    ensures Linked(more, head, s)
    decreases s
  {
    if s != [] {
      assert head in s;
      LinkedFrame(words, more, words[head], s[1..]);
    }
  }

  lemma {:induction false} LinkedIn(words: map<nat, nat>, head: nat, s: seq<nat>)
    requires Linked(words, head, s)
    ensures forall a :: a in s ==> a in words
    decreases s
  {
    if s != [] {
      LinkedIn(words, words[head], s[1..]);
      assert s == [s[0]] + s[1..];
    }
  }

  datatype Header = Header(count: nat, free: nat, next: nat)

  /** The header, the words and the free objects of a slab fit together. */
  ghost predicate SlabOk(size: nat, p: nat, h: Header, words: map<nat, nat>, free: seq<nat>) {
    && SizeClass(size) && IsPage(p) && Linked(words, h.free, free) && NoDup(free)
    && (forall a :: a in free ==> IsObject(size, p, a))
    && |free| + h.count == Total(size)
  }

  /** The header after the first free object was taken. */
  function Popped(h: Header, words: map<nat, nat>): Header
    requires h.free in words
  {
    h.(count := h.count + 1, free := words[h.free])
  }

  lemma PopKeeps(size: nat, p: nat, h: Header, words: map<nat, nat>, free: seq<nat>)
    requires SlabOk(size, p, h, words, free) && free != []
    ensures h.free in words && h.free == free[0] && SlabOk(size, p, Popped(h, words), words, free[1..])
    ensures h.free !in free[1..]
  {
  }

  /** The header after `a` was put in front of the free list. */
  function Pushed(h: Header, a: nat): Header
    requires h.count > 0
  {
    h.(count := h.count - 1, free := a)
  }

  lemma PushKeeps(size: nat, p: nat, h: Header, words: map<nat, nat>, free: seq<nat>, a: nat)
    requires SlabOk(size, p, h, words, free) && IsObject(size, p, a) && a !in free
    ensures h.count > 0 && SlabOk(size, p, Pushed(h, a), words[a := h.free], [a] + free)
  {
    hide IsObject, Total;
    var more := words[a := h.free];
    LinkedIn(words, h.free, free);
    LinkedFrame(words, more, h.free, free);
    ObjectPlace(size, p, a);
    assert ([a] + free)[1..] == free;
    SomeTaken(size, p, free, a);
  }

  /** Words outside the free list do not matter. */
  lemma OtherWords(size: nat, p: nat, h: Header, words: map<nat, nat>, free: seq<nat>, a: nat, w: nat)
    requires SlabOk(size, p, h, words, free) && a !in free
    ensures SlabOk(size, p, h, words[a := w], free)
  {
    LinkedIn(words, h.free, free);
    LinkedFrame(words, words[a := w], h.free, free);
  }

  // ---------------------------------------------------------------------------
  // Counting

  /** The index of an object. */
  function IndexOf(size: nat, p: nat, a: nat): (i: nat)
    requires SizeClass(size) && IsObject(size, p, a)
    ensures i < Total(size) && a == p + Start(size) + i * size
  {
    ExactQuotient(a - p - Start(size), Total(size), size);
    (a - p - Start(size)) / size
  }

  /** A list of different objects that leaves one out is shorter than the slab. */
  lemma SomeTaken(size: nat, p: nat, free: seq<nat>, a: nat)
    requires SizeClass(size) && NoDup(free) && (forall x :: x in free ==> IsObject(size, p, x))
    requires IsObject(size, p, a) && a !in free
    ensures |free| < Total(size)
  {
    hide IsObject, Total, Start;
    var all := free + [a];
    assert forall k :: 0 <= k < |all| ==> IsObject(size, p, all[k]) by {
      assert forall k :: 0 <= k < |all| ==> all[k] in free || all[k] == a;
    }
    var indices := seq(|all|, k requires 0 <= k < |all| => IndexOf(size, p, all[k]));
    forall i, j | 0 <= i < j < |indices|
      ensures indices[i] != indices[j]
    {
      assert all[i] != all[j];
    }
    Pigeonhole(indices, Total(size));
  }
}
