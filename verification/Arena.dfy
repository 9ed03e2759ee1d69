/**
 SerialArena (arena_impl.h): a bump allocator over one block with a cleanup list
 growing down from its end and power-of-two free lists whose table of heads lives
 inside memory that was returned to the arena. Memory is an array of 8-byte words;
 pointers stored in it are byte addresses and 0 is the null pointer.
 */
module Arenas {
  import opened Common
  import opened Bits

  // ------------------------------------------------------------ size classes

  function AlignUpTo8(n: nat): nat {
    (n + 7) / 8 * 8
  }

  lemma AlignUpTo8IsLeast(n: nat, m: nat)
    requires m % 8 == 0 && n <= m
    ensures n <= AlignUpTo8(n) <= m && AlignUpTo8(n) % 8 == 0 && AlignUpTo8(n) < n + 8
  {
  }

  /** AlignTo, for the alignments of C++ objects. */
  function AlignTo(n: nat, align: nat): nat
    requires align > 0
  {
    (n + align - 1) / align * align
  }

  /** Powers of two, as far as it matters. */
  predicate Alignment(align: nat) {
    align in {1, 2, 4, 8} || (align > 8 && align % 8 == 0)
  }

  /** What is asked of the arena, so that an aligned address with room behind it lies inside. */
  function PaddedSize(size: nat, align: nat): nat {
    if align <= 8 then AlignUpTo8(size) else size + align - 8
  }

  /** The address handed out for a block. */
  function AlignedIn(at: nat, align: nat): nat
    requires align > 0
  {
    if align <= 8 then at else AlignTo(at, align)
  }

  lemma NoRemainder(q: int, align: int, p: int, r: int)
    requires q * align == align * p + r && 0 <= r < align
    ensures r == 0
  {
    var t := q - p;
    assert align * t == r by {
      assert align * t == align * q - align * p;
    }
    if t >= 1 {
      assert align * t == align * (t - 1) + align;
    } else if t <= -1 {
      assert align * t == align * (t + 1) - align;
    }
  }

  lemma MultiplesDivide(q: nat, align: nat)
    requires align > 0
    ensures q * align % align == 0
  {
    var x := q * align;
    NoRemainder(q, align, x / align, x % align);
  }

  lemma LeastMultiple(n: nat, align: nat, q: nat, r: nat)
    requires n + align - 1 == align * q + r && r < align
    ensures n <= q * align < n + align
  {
  }

  lemma AlignToIsLeast(n: nat, align: nat)
    requires align > 0
    ensures AlignTo(n, align) % align == 0 && n <= AlignTo(n, align) < n + align
    ensures align % 8 == 0 ==> AlignTo(n, align) % 8 == 0
  {
    var x := n + align - 1;
    LeastMultiple(n, align, x / align, x % align);
    MultiplesDivide(x / align, align);
    if align % 8 == 0 {
      MultiplesOfEight(x / align, align / 8);
    }
  }

  lemma MultiplesOfEight(q: nat, c: nat)
    ensures q * (8 * c) % 8 == 0
  {
    assert q * (8 * c) == q * c * 8;
  }

  lemma SmallAlignments(at: nat, align: nat)
    requires at % 8 == 0 && align in {1, 2, 4, 8}
    ensures at % align == 0
  {
    var k := at / 8;
    if align == 4 {
      assert at == 4 * (2 * k);
    } else if align == 2 {
      assert at == 2 * (4 * k);
    }
  }

  lemma EightApart(x: nat, y: nat)
    requires x % 8 == 0 && y % 8 == 0 && x < y
    ensures x + 8 <= y
  {
  }

  lemma SumOfWords(x: nat, y: nat)
    requires x % 8 == 0 && y % 8 == 0
    ensures (x + y) % 8 == 0
  {
  }

  /** An aligned address with room for the size lies inside every block of the padded size. */
  lemma AlignedFits(at: nat, size: nat, align: nat)
    requires Alignment(align) && at % 8 == 0
    ensures var r := AlignedIn(at, align);
            r % align == 0 && at <= r && r + size <= at + PaddedSize(size, align)
    ensures PaddedSize(size, align) < size + (if align <= 8 then 8 else align)
  {
    hide AlignTo, AlignUpTo8;
    if align > 8 {
      AlignToIsLeast(at, align);
      SumOfWords(at, align);
      EightApart(AlignTo(at, align), at + align);
    } else {
      RoundedUp(size);
      SmallAlignments(at, align);
    }
  }

  lemma RoundedUp(size: nat)
    ensures size <= AlignUpTo8(size) < size + 8 && AlignUpTo8(size) % 8 == 0
  {
    AlignUpTo8IsLeast(size, AlignUpTo8(size));
  }

  lemma Log2AtLeast(n: nat, k: nat)
    requires n >= Pow2(k)
    ensures Log2Floor(n) >= k
  {
    Log2FloorBounds(n);
    if Log2Floor(n) < k {
      Pow2Monotone(Log2Floor(n) + 1, k);
    }
  }

  /** The free list a request of this many bytes is served from. */
  function RequestClass(size: nat): (i: nat)
    requires size >= 16
  {
    assert Pow2(3) == 8;
    Log2AtLeast(size - 1, 3);
    Log2Floor(size - 1) - 3
  }

  /** The free list a returned block of this many bytes goes to. */
  function ReturnClass(size: nat): (i: nat)
    requires size >= 16
  {
    assert Pow2(4) == 16;
    Log2AtLeast(size, 4);
    Log2Floor(size) - 4
  }

  /** Requests are rounded up and returned blocks down, so that a cached block always fits. */
  lemma ClassesMeet(request: nat, returned: nat)
    requires request >= 16 && returned >= 16
    ensures request <= Pow2(RequestClass(request) + 4)
    ensures Pow2(ReturnClass(returned) + 4) <= returned
    ensures RequestClass(request) == ReturnClass(returned) ==> request <= returned
  {
    Log2FloorBounds(request - 1);
    Log2FloorBounds(returned);
  }

  lemma ClassBounds(size: nat)
    requires size >= 16
    ensures Pow2(RequestClass(size) + 3) < size <= Pow2(RequestClass(size) + 4)
    ensures Pow2(ReturnClass(size) + 4) <= size < Pow2(ReturnClass(size) + 5)
  {
    Log2FloorBounds(size - 1);
    Log2FloorBounds(size);
  }

  lemma LeastAbove(size: nat, c: nat, i: nat)
    requires Pow2(c + 3) < size <= Pow2(c + 4)
    ensures size <= Pow2(i + 4) <==> c <= i
  {
    hide Pow2;
    if c <= i {
      Pow2Monotone(c + 4, i + 4);
    } else {
      Pow2Monotone(i + 4, c + 3);
    }
  }

  lemma GreatestBelow(size: nat, d: nat, i: nat)
    requires Pow2(d + 4) <= size < Pow2(d + 5)
    ensures Pow2(i + 4) <= size <==> i <= d
  {
    hide Pow2;
    if i <= d {
      Pow2Monotone(i + 4, d + 4);
    } else {
      Pow2Monotone(d + 5, i + 4);
    }
  }

  /** The class of a request is the least that suffices, that of a returned block the greatest it fills. */
  lemma ClassesAreExact(size: nat, i: nat)
    requires size >= 16
    ensures size <= Pow2(i + 4) <==> RequestClass(size) <= i
    ensures Pow2(i + 4) <= size <==> i <= ReturnClass(size)
  {
    hide Pow2, RequestClass, ReturnClass;
    ClassBounds(size);
    LeastAbove(size, RequestClass(size), i);
    GreatestBelow(size, ReturnClass(size), i);
  }

  /** A request of so many bytes is what list i is for. */
  predicate ServedFrom(size: nat, i: nat) {
    16 <= size && Pow2(i + 3) < size <= Pow2(i + 4)
  }

  /** A block of so many bytes is filed under list i. */
  predicate FiledUnder(size: nat, i: nat) {
    16 <= size && Pow2(i + 4) <= size < Pow2(i + 5)
  }

  lemma ClassesAre(size: nat, i: nat)
    requires size >= 16
    ensures ServedFrom(size, i) <==> RequestClass(size) == i
    ensures FiledUnder(size, i) <==> ReturnClass(size) == i
  {
    ClassesAreExact(size, i);
    ClassesAreExact(size, i + 1);
    assert Pow2(3) == 8;
    if i > 0 {
      ClassesAreExact(size, i - 1);
    }
    hide Pow2, RequestClass, ReturnClass;
  }

  lemma AllClassesAre(size: nat)
    requires size >= 16
    ensures forall i: nat :: ServedFrom(size, i) <==> RequestClass(size) == i
    ensures forall i: nat :: FiledUnder(size, i) <==> ReturnClass(size) == i
  {
    forall i: nat
      ensures ServedFrom(size, i) <==> RequestClass(size) == i
      ensures FiledUnder(size, i) <==> ReturnClass(size) == i
    {
      ClassesAre(size, i);
    }
  }

  lemma Pow2Words(k: nat)
    requires k >= 3
    ensures Pow2(k) == 8 * Pow2(k - 3)
  {
    assert Pow2(k) == 2 * Pow2(k - 1) && Pow2(k - 1) == 2 * Pow2(k - 2);
  }

  /**
   A block too large for the present table becomes the new table: it is strictly
   longer, at most 64 entries count, and the block's own class is covered.
   */
  lemma NewTableIsLarger(size: Uint64, length: nat)
    requires size >= 16 && ReturnClass(size) >= length
    ensures var entries := if size / 8 > 64 then 64 else size / 8;
            length <= ReturnClass(size) < entries
  {
    var i := ReturnClass(size);
    Log2FloorBounds(size);
    Pow2Words(i + 4);
    Pow2Exceeds(i + 1);
    Pow2At();
    Log2FloorBelow(size, 64);
    hide Pow2, Log2Floor;
    WholeWords(Pow2(i + 1), size);
  }

  lemma WholeWords(words: nat, size: nat)
    requires 8 * words <= size
    ensures words <= size / 8
  {
  }

  // ------------------------------------------------------------------- state

  datatype Block = Block(at: nat, words: nat)

  /** Who a word belongs to; a word has one owner, so regions with different owners are disjoint. */
  datatype Owner =
    | Header                          // block header and the arena object
    | Gap                             // [ptr_, limit_)
    | Live(at: nat)                   // the allocation that starts at this word
    | Cleanup(at: nat)                // the cleanup node that starts at this word
    | Free(list: nat, depth: nat)     // a cached block, counted from the bottom of its list
    | Table                           // the heads of the free lists
    | Lost                            // slack, and tables that were replaced

  datatype Arena = Arena(
    mem: seq<nat>,
    ptr: nat,                 // in words
    limit: nat,               // in words
    table: nat,               // in words; meaningful when there are lists
    owner: seq<Owner>,
    live: map<nat, nat>,      // start of each live allocation, and its length in words
    cleanups: set<nat>,
    lists: seq<seq<Block>>)   // bottom first

  /** The byte address of the top block of a list, or null. */
  function Head(list: seq<Block>): nat {
    if list == [] then 0 else 8 * list[|list| - 1].at
  }

  ghost predicate Owns(owner: seq<Owner>, at: nat, words: nat, who: Owner) {
    at + words <= |owner| && forall w :: at <= w < at + words ==> owner[w] == who
  }

  ghost predicate BlockOwned(a: Arena, i: nat, d: nat)
    requires i < |a.lists| && d < |a.lists[i]|
  {
    var b := a.lists[i][d];
    0 < b.at && 2 <= b.words && Owns(a.owner, b.at, b.words, Free(i, d))
  }

  /** The regions: each inside the block and each with an owner of its own. */
  ghost predicate Regions(a: Arena) {
    && |a.owner| == |a.mem|
    && 0 < a.ptr <= a.limit <= |a.mem|
    && Owns(a.owner, a.ptr, a.limit - a.ptr, Gap)
    && (forall s :: s in a.live ==> 0 < s && 0 < a.live[s] && Owns(a.owner, s, a.live[s], Live(s)))
    && (forall s :: s in a.cleanups ==> Owns(a.owner, s, 2, Cleanup(s)))
    && (forall i, d :: 0 <= i < |a.lists| && 0 <= d < |a.lists[i]| ==> BlockOwned(a, i, d))
    && Owns(a.owner, a.table, |a.lists|, Table)
  }

  /** Blocks on list i hold at least 2^(i+4) bytes. */
  ghost predicate Sizes(lists: seq<seq<Block>>) {
    && |lists| <= 64
    && forall i, d :: 0 <= i < |lists| && 0 <= d < |lists[i]| ==> Pow2(i + 4) <= 8 * lists[i][d].words
  }

  /** The table entry of list i points to its top. */
  ghost predicate EntryLinked(mem: seq<nat>, table: nat, lists: seq<seq<Block>>, i: nat)
    requires i < |lists|
  {
    table + i < |mem| && mem[table + i] == Head(lists[i])
  }

  /** The first word of a cached block points to the block below it. */
  ghost predicate BlockLinked(mem: seq<nat>, lists: seq<seq<Block>>, i: nat, d: nat)
    requires i < |lists| && d < |lists[i]|
  {
    lists[i][d].at < |mem| && mem[lists[i][d].at] == Head(lists[i][..d])
  }

  ghost predicate Links(mem: seq<nat>, table: nat, lists: seq<seq<Block>>) {
    && (forall i :: 0 <= i < |lists| ==> EntryLinked(mem, table, lists, i))
    && (forall i, d :: 0 <= i < |lists| && 0 <= d < |lists[i]| ==> BlockLinked(mem, lists, i, d))
  }

  ghost predicate Inv(a: Arena) {
    Regions(a) && Sizes(a.lists) && Links(a.mem, a.table, a.lists)
  }

  ghost function Paint(owner: seq<Owner>, at: nat, words: nat, who: Owner): (r: seq<Owner>)
    ensures |r| == |owner|
    ensures forall w :: 0 <= w < |owner| ==> r[w] == if at <= w < at + words then who else owner[w]
  {
    seq(|owner|, w requires 0 <= w < |owner| => if at <= w < at + words then who else owner[w])
  }

  /** Repainting words of one owner leaves every region of another owner alone. */
  lemma PaintPreserves(owner: seq<Owner>, at: nat, words: nat, from: Owner, to: Owner)
    requires Owns(owner, at, words, from)
    ensures Owns(Paint(owner, at, words, to), at, words, to)
    ensures forall s: nat, n: nat, who :: Owns(owner, s, n, who) && who != from ==> Owns(Paint(owner, at, words, to), s, n, who)
  {
    var r := Paint(owner, at, words, to);
    forall s: nat, n: nat, who | Owns(owner, s, n, who) && who != from
      ensures Owns(r, s, n, who)
    {
      forall w | s <= w < s + n
        ensures r[w] == who
      {
        assert owner[w] == who;
      }
    }
  }

  // -------------------------------------------------------------- operations

  /** AllocateFromExisting: the first words of the gap. */
  ghost function TakeFromGap(a: Arena, words: nat): Arena
    requires words <= a.limit - a.ptr
  {
    if words == 0 then a
    else a.(ptr := a.ptr + words, owner := Paint(a.owner, a.ptr, words, Live(a.ptr)), live := a.live[a.ptr := words])
  }

  /** The cleanup node is the two words below the limit. */
  ghost function TakeCleanup(a: Arena): Arena
    requires 2 <= a.limit - a.ptr
  {
    a.(limit := a.limit - 2,
       owner := Paint(a.owner, a.limit - 2, 2, Cleanup(a.limit - 2)),
       cleanups := a.cleanups + {a.limit - 2})
  }

  /** The top block of list i serves a request; what the request does not need is lost. */
  ghost function TakeCached(a: Arena, i: nat, words: nat): Arena
    requires Inv(a) && i < |a.lists| && a.lists[i] != []
    requires 0 < words
  {
    var b := a.lists[i][|a.lists[i]| - 1];
    var owner := Paint(Paint(a.owner, b.at, b.words, Lost), b.at, words, Live(b.at));
    assert BlockLinked(a.mem, a.lists, i, |a.lists[i]| - 1) && EntryLinked(a.mem, a.table, a.lists, i);
    a.(mem := a.mem[a.table + i := a.mem[b.at]],
       owner := owner,
       live := a.live[b.at := words],
       lists := a.lists[i := a.lists[i][..|a.lists[i]| - 1]])
  }

  /** A returned allocation goes on top of list i. */
  ghost function PutOnList(a: Arena, at: nat, words: nat, i: nat): Arena
    requires Inv(a) && at in a.live && 0 < words <= a.live[at] && i < |a.lists|
  {
    var owner := Paint(Paint(a.owner, at, a.live[at], Lost), at, words, Free(i, |a.lists[i]|));
    assert EntryLinked(a.mem, a.table, a.lists, i);
    a.(mem := a.mem[at := a.mem[a.table + i]][a.table + i := 8 * at],
       owner := owner,
       live := a.live - {at},
       lists := a.lists[i := a.lists[i] + [Block(at, words)]])
  }

  /** Memory after the old heads were copied to `at` and the rest of the new table cleared. */
  ghost function TableMemory(mem: seq<nat>, table: nat, n: nat, at: nat, words: nat): (r: seq<nat>)
    requires n <= words && table + n <= |mem|
    ensures |r| == |mem|
    ensures forall w :: 0 <= w < |mem| ==>
              r[w] == if at <= w < at + n then mem[table + (w - at)] else if at + n <= w < at + words then 0 else mem[w]
  {
    seq(|mem|, w requires 0 <= w < |mem| =>
      if at <= w < at + n then mem[table + (w - at)] else if at + n <= w < at + words then 0 else mem[w])
  }

  /** A returned allocation becomes the table: old heads first, then null pointers. */
  ghost function BecomeTable(a: Arena, at: nat, words: nat, length: nat): Arena
    requires Inv(a) && at in a.live && |a.lists| <= length <= words <= a.live[at]
  {
    var n := |a.lists|;
    var owner := Paint(Paint(Paint(a.owner, a.table, n, Lost), at, a.live[at], Lost), at, words, Table);
    a.(mem := TableMemory(a.mem, a.table, n, at, words),
       table := at,
       owner := owner,
       live := a.live - {at},
       lists := a.lists + seq(length - n, j => []))
  }

  lemma StartIsNotLive(a: Arena, w: nat)
    requires Inv(a) && w < |a.owner| && a.owner[w] != Live(w)
    ensures w !in a.live
  {
    assert w in a.live ==> Owns(a.owner, w, a.live[w], Live(w));
  }

  lemma FrontOfGap(a: Arena, words: nat)
    requires Inv(a) && 0 < words <= a.limit - a.ptr
    ensures Owns(a.owner, a.ptr, words, Gap) && a.ptr !in a.live
    ensures Owns(Paint(a.owner, a.ptr, words, Live(a.ptr)), a.ptr + words, a.limit - a.ptr - words, Gap)
  {
    StartIsNotLive(a, a.ptr);
  }

  lemma TakeFromGapKeepsInv(a: Arena, words: nat)
    requires Inv(a) && words <= a.limit - a.ptr
    ensures Inv(TakeFromGap(a, words))
  {
    hide Paint, Owns, Links, Sizes;
    if words > 0 {
      var n := TakeFromGap(a, words);
      FrontOfGap(a, words);
      PaintPreserves(a.owner, a.ptr, words, Gap, Live(a.ptr));
      forall i, d | 0 <= i < |n.lists| && 0 <= d < |n.lists[i]|
        ensures BlockOwned(n, i, d)
      {
        assert BlockOwned(a, i, d);
      }
    }
  }

  lemma TakeCleanupKeepsInv(a: Arena)
    requires Inv(a) && 2 <= a.limit - a.ptr
    ensures Inv(TakeCleanup(a))
  {
    var n := TakeCleanup(a);
    PaintPreserves(a.owner, a.limit - 2, 2, Gap, Cleanup(a.limit - 2));
    hide Paint;
    assert Owns(n.owner, n.ptr, n.limit - n.ptr, Gap);
    hide Owns, Links, Sizes;
    forall i, d | 0 <= i < |n.lists| && 0 <= d < |n.lists[i]|
      ensures BlockOwned(n, i, d)
    {
      assert BlockOwned(a, i, d);
    }
  }

  /** The owners of the words that list operations write: no table entry is a block's first word. */
  lemma LinkOwners(a: Arena)
    requires Inv(a)
    ensures forall i, d :: 0 <= i < |a.lists| && 0 <= d < |a.lists[i]| ==>
              a.lists[i][d].at < |a.owner| && a.owner[a.lists[i][d].at] == Free(i, d)
    ensures forall w :: a.table <= w < a.table + |a.lists| ==> w < |a.owner| && a.owner[w] == Table
  {
    forall i, d | 0 <= i < |a.lists| && 0 <= d < |a.lists[i]|
      ensures a.lists[i][d].at < |a.owner| && a.owner[a.lists[i][d].at] == Free(i, d)
    {
      assert BlockOwned(a, i, d);
    }
  }

  lemma TakeCachedKeepsRegions(a: Arena, i: nat, words: nat)
    requires Inv(a) && i < |a.lists| && a.lists[i] != []
    requires 0 < words && 8 * words <= Pow2(i + 4)
    ensures Regions(TakeCached(a, i, words))
  {
    var top := |a.lists[i]| - 1;
    var b := a.lists[i][top];
    var n := TakeCached(a, i, words);
    assert BlockOwned(a, i, top);
    StartIsNotLive(a, b.at);
    var o := Paint(a.owner, b.at, b.words, Lost);
    PaintPreserves(a.owner, b.at, b.words, Free(i, top), Lost);
    PaintPreserves(o, b.at, words, Lost, Live(b.at));
    hide Owns, Paint, Links, Sizes;
    forall j, d | 0 <= j < |n.lists| && 0 <= d < |n.lists[j]|
      ensures BlockOwned(n, j, d)
    {
      assert BlockOwned(a, j, d);
    }
  }

  /** No table entry is the first word of a cached block. */
  ghost predicate Apart(table: nat, lists: seq<seq<Block>>) {
    forall i, d :: 0 <= i < |lists| && 0 <= d < |lists[i]| ==>
      !(table <= lists[i][d].at < table + |lists|)
  }

  lemma BlocksAreApartFromTable(a: Arena)
    requires Inv(a)
    ensures Apart(a.table, a.lists)
    ensures forall s :: s in a.live ==>
              && !(a.table <= s < a.table + |a.lists|)
              && forall i, d :: 0 <= i < |a.lists| && 0 <= d < |a.lists[i]| ==> a.lists[i][d].at != s
  {
    LinkOwners(a);
    forall s | s in a.live
      ensures !(a.table <= s < a.table + |a.lists|)
      ensures forall i, d :: 0 <= i < |a.lists| && 0 <= d < |a.lists[i]| ==> a.lists[i][d].at != s
    {
      assert Owns(a.owner, s, a.live[s], Live(s));
      assert a.owner[s] == Live(s);
    }
  }

  lemma PopKeepsLinks(mem: seq<nat>, table: nat, lists: seq<seq<Block>>, i: nat)
    requires Links(mem, table, lists) && Apart(table, lists) && i < |lists| && lists[i] != []
    requires table + i < |mem| && lists[i][|lists[i]| - 1].at < |mem|
    ensures Links(mem[table + i := mem[lists[i][|lists[i]| - 1].at]], table, lists[i := lists[i][..|lists[i]| - 1]])
  {
    var top := |lists[i]| - 1;
    var m := mem[table + i := mem[lists[i][top].at]];
    var ls := lists[i := lists[i][..top]];
    assert BlockLinked(mem, lists, i, top);
    forall j | 0 <= j < |ls|
      ensures EntryLinked(m, table, ls, j)
    {
      assert EntryLinked(mem, table, lists, j);
    }
    forall j, d | 0 <= j < |ls| && 0 <= d < |ls[j]|
      ensures BlockLinked(m, ls, j, d)
    {
      assert BlockLinked(mem, lists, j, d);
      assert ls[j][..d] == lists[j][..d];
    }
  }

  lemma PushKeepsLinks(mem: seq<nat>, table: nat, lists: seq<seq<Block>>, i: nat, b: Block)
    requires Links(mem, table, lists) && Apart(table, lists) && i < |lists|
    requires table + i < |mem| && b.at < |mem| && !(table <= b.at < table + |lists|)
    requires forall j, d :: 0 <= j < |lists| && 0 <= d < |lists[j]| ==> lists[j][d].at != b.at
    ensures Links(mem[b.at := mem[table + i]][table + i := 8 * b.at], table, lists[i := lists[i] + [b]])
  {
    var m := mem[b.at := mem[table + i]][table + i := 8 * b.at];
    var ls := lists[i := lists[i] + [b]];
    forall j | 0 <= j < |ls|
      ensures EntryLinked(m, table, ls, j)
    {
      assert EntryLinked(mem, table, lists, j);
    }
    forall j, d | 0 <= j < |ls| && 0 <= d < |ls[j]|
      ensures BlockLinked(m, ls, j, d)
    {
      if j == i && d == |lists[i]| {
        assert EntryLinked(mem, table, lists, i);
        assert ls[i][..d] == lists[i];
      } else {
        assert BlockLinked(mem, lists, j, d);
        assert ls[j][..d] == lists[j][..d];
      }
    }
  }

  lemma TakeCachedKeepsInv(a: Arena, i: nat, words: nat)
    requires Inv(a) && i < |a.lists| && a.lists[i] != []
    requires 0 < words && 8 * words <= Pow2(i + 4)
    ensures Inv(TakeCached(a, i, words))
  {
    TakeCachedKeepsRegions(a, i, words);
    BlocksAreApartFromTable(a);
    assert BlockLinked(a.mem, a.lists, i, |a.lists[i]| - 1) && EntryLinked(a.mem, a.table, a.lists, i);
    PopKeepsLinks(a.mem, a.table, a.lists, i);
    hide Regions, Paint, Links;
  }

  lemma PutOnListKeepsRegions(a: Arena, at: nat, words: nat, i: nat)
    requires Inv(a) && at in a.live && 2 <= words <= a.live[at] && i < |a.lists|
    ensures Regions(PutOnList(a, at, words, i))
  {
    var n := PutOnList(a, at, words, i);
    var o := Paint(a.owner, at, a.live[at], Lost);
    PaintPreserves(a.owner, at, a.live[at], Live(at), Lost);
    PaintPreserves(o, at, words, Lost, Free(i, |a.lists[i]|));
    hide Owns, Paint, Links, Sizes;
    forall j, d | 0 <= j < |n.lists| && 0 <= d < |n.lists[j]|
      ensures BlockOwned(n, j, d)
    {
      if j != i || d < |a.lists[i]| {
        assert BlockOwned(a, j, d);
      }
    }
  }

  lemma PutOnListKeepsInv(a: Arena, at: nat, words: nat, i: nat)
    requires Inv(a) && at in a.live && 2 <= words <= a.live[at] && i < |a.lists|
    requires Pow2(i + 4) <= 8 * words
    ensures Inv(PutOnList(a, at, words, i))
  {
    PutOnListKeepsRegions(a, at, words, i);
    BlocksAreApartFromTable(a);
    assert EntryLinked(a.mem, a.table, a.lists, i);
    PushKeepsLinks(a.mem, a.table, a.lists, i, Block(at, words));
    hide Regions, Paint, Links;
  }

  lemma BecomeTableKeepsRegions(a: Arena, at: nat, words: nat, length: nat)
    requires Inv(a) && at in a.live && |a.lists| <= length <= words <= a.live[at]
    ensures Regions(BecomeTable(a, at, words, length))
  {
    var n := BecomeTable(a, at, words, length);
    var o := Paint(a.owner, a.table, |a.lists|, Lost);
    var p := Paint(o, at, a.live[at], Lost);
    PaintPreserves(a.owner, a.table, |a.lists|, Table, Lost);
    PaintPreserves(o, at, a.live[at], Live(at), Lost);
    PaintPreserves(p, at, words, Lost, Table);
    assert Owns(n.owner, at, length, Table);
    hide Owns, Paint, Links, Sizes;
    forall j, d | 0 <= j < |n.lists| && 0 <= d < |n.lists[j]|
      ensures BlockOwned(n, j, d)
    {
      assert n.lists[j] == a.lists[j];
      assert BlockOwned(a, j, d);
    }
  }

  lemma NewTableLinks(a: Arena, at: nat, words: nat, length: nat)
    requires Inv(a) && at in a.live && |a.lists| <= length <= words <= a.live[at]
    requires at + words <= |a.mem|
    ensures var n := BecomeTable(a, at, words, length);
            forall j :: 0 <= j < |n.lists| ==> EntryLinked(n.mem, n.table, n.lists, j)
  {
    hide Regions, Sizes, Paint;
    forall j | 0 <= j < |a.lists|
      ensures a.table + j < |a.mem| && a.mem[a.table + j] == Head(a.lists[j])
    {
      assert EntryLinked(a.mem, a.table, a.lists, j);
    }
  }

  lemma BlocksKeepLinks(a: Arena, at: nat, words: nat, length: nat)
    requires Inv(a) && at in a.live && |a.lists| <= length <= words <= a.live[at]
    requires forall w :: at <= w < at + words ==> w < |a.owner| && a.owner[w] == Live(at)
    ensures var n := BecomeTable(a, at, words, length);
            forall j, d :: 0 <= j < |n.lists| && 0 <= d < |n.lists[j]| ==> BlockLinked(n.mem, n.lists, j, d)
  {
    LinkOwners(a);
    hide Regions, Sizes, Paint;
    var n := BecomeTable(a, at, words, length);
    forall j, d | 0 <= j < |n.lists| && 0 <= d < |n.lists[j]|
      ensures BlockLinked(n.mem, n.lists, j, d)
    {
      assert n.lists[j] == a.lists[j];
      assert BlockLinked(a.mem, a.lists, j, d);
    }
  }

  lemma BecomeTableKeepsInv(a: Arena, at: nat, words: nat, length: nat)
    requires Inv(a) && at in a.live && |a.lists| <= length <= words <= a.live[at] && length <= 64
    ensures Inv(BecomeTable(a, at, words, length))
  {
    assert Owns(a.owner, at, a.live[at], Live(at));
    BecomeTableKeepsRegions(a, at, words, length);
    NewTableLinks(a, at, words, length);
    BlocksKeepLinks(a, at, words, length);
    hide Regions, Paint, EntryLinked, BlockLinked, TableMemory;
  }

  // ---------------------------------------------------- what clients rely on

  /** Memory in a client's hands: allocations and cleanup nodes. */
  predicate InUse(who: Owner) {
    who.Live? || who.Cleanup?
  }

  /** Whatever was in use, but for the allocation at `released`, keeps its owner and its contents. */
  ghost predicate Undisturbed(before: Arena, after: Arena, released: Option<nat>) {
    && |after.owner| == |before.owner| == |before.mem| == |after.mem|
    && forall w :: 0 <= w < |before.owner| && InUse(before.owner[w])
                   && (released.Some? ==> before.owner[w] != Live(released.value)) ==>
         after.owner[w] == before.owner[w] && after.mem[w] == before.mem[w]
  }

  /** `words` words from `at` were nobody's and are now a live allocation; nothing else in use changed. */
  ghost predicate Served(before: Arena, after: Arena, at: nat, words: nat) {
    && Inv(after)
    && 0 < at && at + words <= |before.owner|
    && (forall w :: at <= w < at + words ==> before.owner[w] == Gap || before.owner[w].Free?)
    && (words > 0 ==> at !in before.live)
    && after.live == (if words > 0 then before.live[at := words] else before.live)
    && Undisturbed(before, after, None)
  }

  /** The bytes asked for lie inside the words given, which are fewer than a further alignment would fill. */
  predicate Holds(address: nat, size: nat, align: nat, at: nat, words: nat) {
    8 * at <= address && address + size <= 8 * (at + words) && 8 * words < size + (if align <= 8 then 8 else align)
  }

  /** The words from `at` and the two of the node were gap; now they are a live allocation and its node, apart. */
  ghost predicate ServedWithCleanup(before: Arena, after: Arena, at: nat, words: nat, node: nat) {
    && Inv(after) && |after.owner| == |before.owner|
    && 0 < at && at + words <= node && node + 2 <= |before.owner|
    && (forall w :: at <= w < at + words ==> before.owner[w] == Gap && after.owner[w] == Live(at))
    && (forall w :: node <= w < node + 2 ==> before.owner[w] == Gap && after.owner[w] == Cleanup(node))
    && after.live == (if words > 0 then before.live[at := words] else before.live)
    && after.cleanups == before.cleanups + {node} && node !in before.cleanups
    && Undisturbed(before, after, None)
  }

  lemma NoNodeInGap(a: Arena, w: nat)
    requires Inv(a) && a.ptr <= w < a.limit
    ensures w !in a.cleanups
  {
    assert a.owner[w] == Gap;
    assert w in a.cleanups ==> Owns(a.owner, w, 2, Cleanup(w));
  }

  lemma GapServesWithCleanup(a: Arena, words: nat)
    requires Inv(a) && words + 2 <= a.limit - a.ptr
    ensures ServedWithCleanup(a, TakeCleanup(TakeFromGap(a, words)), a.ptr, words, a.limit - 2)
  {
    var b := TakeFromGap(a, words);
    TakeFromGapKeepsInv(a, words);
    GapServes(a, words);
    TakeCleanupKeepsInv(b);
    CleanupDisturbsNothing(a, b);
    assert Owns(a.owner, a.ptr, a.limit - a.ptr, Gap);
    NoNodeInGap(a, a.limit - 2);
    hide Inv, Undisturbed;
  }

  lemma GapServes(a: Arena, words: nat)
    requires Inv(a) && words <= a.limit - a.ptr
    ensures Served(a, TakeFromGap(a, words), a.ptr, words) && Inv(TakeFromGap(a, words))
  {
    TakeFromGapKeepsInv(a, words);
    if words > 0 {
      StartIsNotLive(a, a.ptr);
    }
  }

  lemma CacheServes(a: Arena, i: nat, words: nat)
    requires Inv(a) && i < |a.lists| && a.lists[i] != []
    requires 0 < words && 8 * words <= Pow2(i + 4)
    ensures Served(a, TakeCached(a, i, words), a.lists[i][|a.lists[i]| - 1].at, words)
    ensures Inv(TakeCached(a, i, words))
  {
    TakeCachedKeepsInv(a, i, words);
    LinkOwners(a);
    var top := |a.lists[i]| - 1;
    var b := a.lists[i][top];
    assert BlockOwned(a, i, top);
    StartIsNotLive(a, b.at);
    assert a.owner[a.table + i] == Table;
    hide Regions, Links, Sizes;
  }

  /** Regions of different owners share no word. */
  lemma OwnersDoNotOverlap(owner: seq<Owner>, s: nat, n: nat, who: Owner, t: nat, m: nat, whose: Owner)
    requires Owns(owner, s, n, who) && Owns(owner, t, m, whose) && who != whose && 0 < n && 0 < m
    ensures s + n <= t || t + m <= s
  {
    var w := if s < t then t else s;
    assert w < s + n ==> owner[w] == who;
    assert w < t + m ==> owner[w] == whose;
  }

  /** The stretch of words an owner has: the gap, an allocation, a cleanup node, a cached block or the table. */
  ghost predicate IsRegion(a: Arena, who: Owner, at: nat, words: nat) {
    match who
    case Gap => at == a.ptr && at + words == a.limit
    case Live(s) => s in a.live && at == s && words == a.live[s]
    case Cleanup(s) => s in a.cleanups && at == s && words == 2
    case Free(i, d) => i < |a.lists| && d < |a.lists[i]| && a.lists[i][d] == Block(at, words)
    case Table => at == a.table && words == |a.lists|
    case _ => false
  }

  /** Any two regions are apart, and each is inside the block. */
  lemma RegionsAreDisjoint(a: Arena, who: Owner, s: nat, n: nat, whose: Owner, t: nat, m: nat)
    requires Inv(a) && IsRegion(a, who, s, n) && IsRegion(a, whose, t, m) && who != whose
    ensures s + n <= |a.mem|
    ensures n == 0 || m == 0 || s + n <= t || t + m <= s
  {
    RegionIsOwned(a, who, s, n);
    RegionIsOwned(a, whose, t, m);
    if 0 < n && 0 < m {
      OwnersDoNotOverlap(a.owner, s, n, who, t, m, whose);
    }
  }

  lemma RegionIsOwned(a: Arena, who: Owner, at: nat, words: nat)
    requires Inv(a) && IsRegion(a, who, at, words)
    ensures Owns(a.owner, at, words, who) && |a.owner| == |a.mem|
  {
    hide Links, Sizes, Owns;
    if who.Free? {
      assert BlockOwned(a, who.list, who.depth);
    }
  }

  lemma GapIsInside(a: Arena)
    requires Inv(a)
    ensures 0 < a.ptr <= a.limit <= |a.mem|
  {
  }

  /** A cleanup node takes two words of the gap and no word in use. */
  lemma CleanupDisturbsNothing(a: Arena, b: Arena)
    requires Inv(b) && 2 <= b.limit - b.ptr && Undisturbed(a, b, None)
    ensures Undisturbed(a, TakeCleanup(b), None)
  {
    assert Owns(b.owner, b.ptr, b.limit - b.ptr, Gap);
    hide Links, Sizes;
  }

  /** What the table entry of list i says about the list. */
  lemma CachedHead(a: Arena, i: nat)
    requires Inv(a) && i < |a.lists|
    ensures a.table + i < |a.mem| && a.mem[a.table + i] == Head(a.lists[i])
    ensures a.mem[a.table + i] == 0 <==> a.lists[i] == []
    ensures a.lists[i] != [] ==> a.lists[i][|a.lists[i]| - 1].at < |a.mem|
  {
    assert EntryLinked(a.mem, a.table, a.lists, i);
    if a.lists[i] != [] {
      var top := |a.lists[i]| - 1;
      assert BlockOwned(a, i, top) && BlockLinked(a.mem, a.lists, i, top);
    }
  }

  lemma PutOnListReleases(a: Arena, at: nat, words: nat, i: nat)
    requires Inv(a) && at in a.live && 2 <= words <= a.live[at] && i < |a.lists|
    requires Pow2(i + 4) <= 8 * words
    ensures Undisturbed(a, PutOnList(a, at, words, i), Some(at))
  {
    LinkOwners(a);
    assert a.owner[a.table + i] == Table;
    assert Owns(a.owner, at, a.live[at], Live(at));
    hide Links, Sizes;
  }

  lemma BecomeTableReleases(a: Arena, at: nat, words: nat, length: nat)
    requires Inv(a) && at in a.live && |a.lists| <= length <= words <= a.live[at] && length <= 64
    ensures Undisturbed(a, BecomeTable(a, at, words, length), Some(at))
  {
    LinkOwners(a);
    assert Owns(a.owner, at, a.live[at], Live(at));
    hide Links, Sizes;
  }

  // -------------------------------------------------------------- the object

  /** The block last filed. */
  function Top(list: seq<Block>): Block
    requires list != []
  {
    list[|list| - 1]
  }

  lemma NotForLists(size: nat)
    requires size < 16
    ensures forall i: nat :: !ServedFrom(size, i)
  {
  }

  /** A cached block can serve the request. */
  ghost predicate CacheHas(a: Arena, size: nat) {
    size >= 16 && RequestClass(size) < |a.lists| && a.lists[RequestClass(size)] != []
  }

  class SerialArena {
    const mem: array<nat>
    var ptr: nat                 // byte addresses
    var limit: nat
    var cachedBlockLength: nat
    var cachedBlocks: nat
    ghost var a: Arena

    ghost predicate Valid()
      reads this, mem
    {
      && Inv(a)
      && a.mem == mem[..]
      && ptr == 8 * a.ptr && limit == 8 * a.limit
      && cachedBlockLength == |a.lists| && cachedBlocks == 8 * a.table
    }

    /** A block of the given size whose header and arena object take the first words. */
    constructor (words: nat, header: nat)
      requires 0 < header <= words
      ensures Valid() && fresh(mem) && mem.Length == words
      ensures a.live == map[] && a.lists == [] && a.cleanups == {}
    {
      mem := new nat[words];
      ptr, limit := 8 * header, 8 * words;
      cachedBlockLength, cachedBlocks := 0, 0;
      new;
      a := Arena(mem[..], header, words, 0,
                 seq(words, w => if w < header then Header else Gap), map[], {}, []);
    }

    predicate HasSpace(n: nat)
      reads this
    {
      ptr <= limit && n <= limit - ptr
    }

    method AllocateFromExisting(n: nat) returns (ret: nat)
      requires Valid() && n % 8 == 0 && HasSpace(n)
      modifies this
      ensures Valid() && ret == old(ptr) && ret % 8 == 0
      ensures a == TakeFromGap(old(a), n / 8) && Served(old(a), a, ret / 8, n / 8)
      ensures limit == old(limit) && ptr == old(ptr) + n && a.cleanups == old(a.cleanups)
    {
      hide Inv, Served, Paint;
      GapIsInside(a);
      GapServes(a, n / 8);
      ret := ptr;
      a := TakeFromGap(a, n / 8);
      ptr := ptr + n;
    }

    /** The head of the list of the request's class. Null exactly when the request is small, its class has no table entry, or its list is empty. */
    method TryAllocateFromCachedBlock(size: nat) returns (ret: nat)
      requires Valid() && size % 8 == 0
      modifies this, mem
      ensures Valid()
      ensures ret != 0 <==> CacheHas(old(a), size)
      ensures ret != 0 <==> exists i :: 0 <= i < |old(a.lists)| && old(a.lists)[i] != [] && ServedFrom(size, i)
      ensures ret == 0 ==> a == old(a)
      ensures forall i :: 0 <= i < |old(a.lists)| && old(a.lists)[i] != [] && ServedFrom(size, i) ==>
                ret == 8 * Top(old(a.lists)[i]).at && a.lists == old(a.lists)[i := old(a.lists)[i][..|old(a.lists)[i]| - 1]]
      ensures ret != 0 ==>
                && ret == Head(old(a.lists)[RequestClass(size)])
                && a == TakeCached(old(a), RequestClass(size), size / 8)
      ensures ret != 0 ==> ret % 8 == 0 && Served(old(a), a, ret / 8, size / 8)
      ensures ptr == old(ptr) && limit == old(limit) && a.cleanups == old(a.cleanups)
    {
      hide Inv, Served, Paint, RequestClass, Pow2, ServedFrom;
      if size < 16 {
        NotForLists(size);
        return 0;
      }
      AllClassesAre(size);
      var index := RequestClass(size);
      if index >= cachedBlockLength {
        return 0;
      }
      CachedHead(a, index);
      var entry := cachedBlocks / 8 + index;
      var head := mem[entry];
      assert head == a.mem[a.table + index];
      if head == 0 {
        return 0;
      }
      ClassesMeet(size, 16);
      CacheServes(a, index, size / 8);
      ghost var b := TakeCached(a, index, size / 8);
      mem[entry] := mem[head / 8];
      a := b;
      ret := head;
    }

    /** None stands for the fallback, which asks for another block. */
    method AllocateAligned(n: nat, fromArrays: bool) returns (ret: Option<nat>)
      requires Valid() && n % 8 == 0
      modifies this, mem
      ensures Valid()
      ensures ret.Some? ==> ret.value % 8 == 0 && Served(old(a), a, ret.value / 8, n / 8)
      ensures forall i :: 0 <= i < |old(a.lists)| && old(a.lists)[i] != [] && ServedFrom(n, i) && fromArrays ==>
                ret == Some(8 * Top(old(a.lists)[i]).at) && a.lists == old(a.lists)[i := old(a.lists)[i][..|old(a.lists)[i]| - 1]]
      ensures (!fromArrays || forall i :: 0 <= i < |old(a.lists)| && old(a.lists)[i] != [] ==> !ServedFrom(n, i)) ==>
                ret == (if old(HasSpace(n)) then Some(old(ptr)) else None) && a.lists == old(a.lists)
      ensures ret.None? ==> a == old(a)
    {
      hide Served, ServedFrom;
      if n >= 16 {
        AllClassesAre(n);
      } else {
        NotForLists(n);
      }
      if fromArrays {
        var res := TryAllocateFromCachedBlock(n);
        if res != 0 {
          return Some(res);
        }
      }
      if !HasSpace(n) {
        return None;
      }
      var res := AllocateFromExisting(n);
      ret := Some(res);
    }

    method MaybeAllocateAligned(n: nat) returns (ok: bool, out: nat)
      requires Valid() && n % 8 == 0
      modifies this
      ensures Valid()
      ensures ok == old(HasSpace(n))
      ensures ok ==> out == old(ptr) && ptr == old(ptr) + n && out % 8 == 0 && Served(old(a), a, out / 8, n / 8)
      ensures !ok ==> a == old(a)
    {
      hide Served;
      if !HasSpace(n) {
        return false, 0;
      }
      out := AllocateFromExisting(n);
      ok := true;
    }

    /** An allocation and the cleanup node below the limit; both are new and apart. */
    method AllocateAlignedWithCleanup(n: nat) returns (ret: Option<(nat, nat)>)
      requires Valid() && n % 8 == 0
      modifies this
      ensures Valid()
      ensures ret.Some? <==> old(HasSpace(n + 16))
      ensures ret.None? ==> a == old(a)
      ensures ret.Some? ==>
                && ret.value == (old(ptr), limit) && limit == old(limit) - 16
                && ServedWithCleanup(old(a), a, ret.value.0 / 8, n / 8, ret.value.1 / 8)
                && ret.value.0 % 8 == 0 && ret.value.1 % 8 == 0
                && a == TakeCleanup(TakeFromGap(old(a), n / 8))
    {
      if !HasSpace(n + 16) {
        return None;
      }
      hide Inv, Undisturbed, Paint, ServedWithCleanup;
      GapIsInside(a);
      ghost var words := n / 8;
      assert n == 8 * words;
      GapServesWithCleanup(a, words);
      var at := ptr;
      ptr := ptr + n;
      limit := limit - 16;
      a := TakeCleanup(TakeFromGap(a, words));
      ret := Some((at, limit));
      assert at / 8 == old(a).ptr && limit / 8 == old(a).limit - 2;
    }

    /** Bytes for any client, with an alignment; beyond 8 the size must be whole words, which the arena asserts. */
    method Allocate(size: nat, align: nat, fromArrays: bool) returns (ret: Option<nat>)
      requires Valid() && Alignment(align) && (align > 8 ==> size % 8 == 0)
      modifies this, mem
      ensures Valid()
      ensures ret.Some? ==> ret.value % align == 0 && exists at, words :: Holds(ret.value, size, align, at, words)
                                                                     && Served(old(a), a, at, words)
      ensures ret.None? ==> a == old(a) && forall n :: PaddedSize(size, align) <= n ==> !old(HasSpace(n))
    {
      hide Served, RequestClass, AlignTo, ServedFrom, Top, Inv, AlignUpTo8;
      var n := PaddedSize(size, align);
      RoundedUp(size);
      var block := AllocateAligned(n, fromArrays);
      if block.None? {
        return None;
      }
      AlignedFits(block.value, size, align);
      ret := Some(AlignedIn(block.value, align));
      assert Holds(ret.value, size, align, block.value / 8, n / 8) && Served(old(a), a, block.value / 8, n / 8);
    }

    /** Bytes whose destructor is registered in the node of the same allocation. */
    method AllocateWithDestructor(size: nat, align: nat, destructor: nat) returns (ret: Option<nat>)
      requires Valid() && Alignment(align) && (align > 8 ==> size % 8 == 0)
      modifies this, mem
      ensures Valid() && (ret.None? ==> a == old(a))
      ensures ret.Some? ==>
                && ret.value % align == 0 && limit / 8 + 2 <= |a.mem|
                && a.mem[limit / 8] == ret.value && a.mem[limit / 8 + 1] == destructor
                && exists at, words :: Holds(ret.value, size, align, at, words)
                                  && ServedWithCleanup(old(a), a, at, words, limit / 8)
    {
      hide Inv, Undisturbed, Paint, AlignTo, ServedWithCleanup;
      var n := PaddedSize(size, align);
      RoundedUp(size);
      var res := AllocateAlignedWithCleanup(n);
      if res.None? {
        return None;
      }
      AlignedFits(res.value.0, size, align);
      var elem := AlignedIn(res.value.0, align);
      ghost var at, words := res.value.0 / 8, n / 8;
      WriteNode(res.value.1 / 8, elem, destructor, old(a), at, words);
      ret := Some(elem);
      assert Holds(elem, size, align, at, words) && ServedWithCleanup(old(a), a, at, words, limit / 8);
    }

    /** The two words of a new cleanup node are filled in. */
    method WriteNode(node: nat, elem: nat, destructor: nat, ghost before: Arena, ghost at: nat, ghost words: nat)
      requires Valid() && ServedWithCleanup(before, a, at, words, node)
      modifies this`a, mem
      ensures Valid() && ServedWithCleanup(before, a, at, words, node)
      ensures node + 2 <= |a.mem| && a.mem[node] == elem && a.mem[node + 1] == destructor
    {
      hide Inv, Undisturbed, Paint;
      WriteCleanupKeepsInv(a, node, elem, destructor);
      WriteDisturbsNothing(before, a, node, elem, destructor);
      mem[node] := elem;
      mem[node + 1] := destructor;
      a := a.(mem := a.mem[node := elem][node + 1 := destructor]);
    }

    /** A node for a cleanup without an allocation: its two words are the object and the function. */
    method AddCleanup(elem: nat, cleanup: nat) returns (ok: bool)
      requires Valid()
      modifies this, mem
      ensures Valid() && ok == old(HasSpace(16))
      ensures ok ==>
                && a.cleanups == old(a.cleanups) + {limit / 8} && a.live == old(a.live) && a.lists == old(a.lists)
                && limit / 8 + 2 <= |a.mem| && a.mem[limit / 8] == elem && a.mem[limit / 8 + 1] == cleanup
      ensures Undisturbed(old(a), a, None)
    {
      hide Inv, Undisturbed, Paint;
      var res := AllocateAlignedWithCleanup(0);
      if res.None? {
        NothingDisturbed(a);
        return false;
      }
      var node := res.value.1 / 8;
      WriteCleanupKeepsInv(a, node, elem, cleanup);
      ghost var b := a.(mem := a.mem[node := elem][node + 1 := cleanup]);
      WriteDisturbsNothing(old(a), a, node, elem, cleanup);
      mem[node] := elem;
      mem[node + 1] := cleanup;
      a := b;
      ok := true;
    }

    /** A client writes a word of one of its allocations. */
    method WriteLive(at: nat, word: nat, v: nat)
      requires Valid() && at in a.live && word < a.live[at] && at + word < mem.Length
      modifies this`a, mem
      ensures Valid() && a == old(a).(mem := old(a.mem)[at + word := v])
    {
      WriteLiveKeepsInv(a, at, word, v);
      mem[at + word] := v;
      a := a.(mem := a.mem[at + word := v]);
    }

    /** The returned memory becomes the table: the old heads, then null pointers. */
    method BecomeFreeListTable(p: nat, size: Uint64)
      requires Valid() && p % 8 == 0 && p / 8 in a.live && 16 <= size <= 8 * a.live[p / 8]
      requires ReturnClass(size) >= cachedBlockLength
      modifies this, mem
      ensures Valid()
      ensures a.live == old(a.live) - {p / 8} && a.cleanups == old(a.cleanups)
      ensures Undisturbed(old(a), a, Some(p / 8))
      ensures |old(a.lists)| <= ReturnClass(size) < |a.lists| == (if size >= 512 then 64 else size / 8)
      ensures a.lists == old(a.lists) + seq(|a.lists| - |old(a.lists)|, i => [])
    {
      hide Inv, Paint, Undisturbed, TableMemory, ReturnClass, Pow2;
      NewTableIsLarger(size, cachedBlockLength);
      var newList, newSize := p / 8, size / 8;
      var length := if newSize > 64 then 64 else newSize;
      BecomeTableKeepsInv(a, newList, newSize, length);
      BecomeTableReleases(a, newList, newSize, length);
      NewTableWords(a, newList, newSize);
      ghost var b := BecomeTable(a, newList, newSize, length);
      FillTable(newList, newSize, cachedBlocks / 8, cachedBlockLength);
      a := b;
      cachedBlocks := p;
      cachedBlockLength := length;
    }

    /** std::copy of the old heads and std::fill of the rest. */
    method FillTable(newList: nat, newSize: nat, oldTable: nat, n: nat)
      requires n <= newSize && oldTable + n <= mem.Length && newList + newSize <= mem.Length
      requires n > 0 ==> newList + newSize <= oldTable || oldTable + n <= newList
      modifies mem
      ensures mem[..] == TableMemory(old(mem[..]), oldTable, n, newList, newSize)
    {
      forall i | 0 <= i < n {
        mem[newList + i] := mem[oldTable + i];
      }
      forall i | n <= i < newSize {
        mem[newList + i] := 0;
      }
    }

    method PushOnFreeList(p: nat, size: nat, index: nat)
      requires Valid() && p % 8 == 0 && p / 8 in a.live && 16 <= size <= 8 * a.live[p / 8]
      requires index < cachedBlockLength && Pow2(index + 4) <= size
      modifies this, mem
      ensures Valid()
      ensures a.live == old(a.live) - {p / 8} && a.cleanups == old(a.cleanups)
      ensures Undisturbed(old(a), a, Some(p / 8))
      ensures a.lists == old(a.lists)[index := old(a.lists)[index] + [Block(p / 8, size / 8)]]
    {
      hide Inv, Paint, Undisturbed, Pow2;
      var node, entry := p / 8, cachedBlocks / 8 + index;
      BlockWords(size, index);
      PutOnListKeepsInv(a, node, size / 8, index);
      PutOnListReleases(a, node, size / 8, index);
      NewTableWords(a, node, size / 8);
      ghost var b := PutOnList(a, node, size / 8, index);
      mem[node] := mem[entry];
      mem[entry] := p;
      a := b;
    }

    /** A returned allocation goes to its free list, or becomes the table that has one for it. */
    method ReturnArrayMemory(p: nat, size: Uint64)
      requires Valid() && p % 8 == 0 && p / 8 in a.live && 16 <= size <= 8 * a.live[p / 8]
      modifies this, mem
      ensures Valid()
      ensures a.live == old(a.live) - {p / 8} && a.cleanups == old(a.cleanups)
      ensures Undisturbed(old(a), a, Some(p / 8))
      ensures forall i :: 0 <= i < |old(a.lists)| && FiledUnder(size, i) ==>
                a.lists == old(a.lists)[i := old(a.lists)[i] + [Block(p / 8, size / 8)]]
      ensures (forall i :: 0 <= i < |old(a.lists)| ==> !FiledUnder(size, i)) ==>
                && |old(a.lists)| < |a.lists| == (if size >= 512 then 64 else size / 8)
                && a.lists == old(a.lists) + seq(|a.lists| - |old(a.lists)|, i => [])
                && exists i :: 0 <= i < |a.lists| && FiledUnder(size, i)
    {
      ClassesMeet(16, size);
      AllClassesAre(size);
      hide Undisturbed, ReturnClass, FiledUnder;
      var index := ReturnClass(size);
      assert FiledUnder(size, index);
      if index >= cachedBlockLength {
        BecomeFreeListTable(p, size);
      } else {
        PushOnFreeList(p, size, index);
      }
    }
  }

  lemma BlockWords(size: nat, index: nat)
    requires 16 <= size && Pow2(index + 4) <= size
    ensures Pow2(index + 4) <= 8 * (size / 8)
  {
    Pow2Words(index + 4);
    hide Pow2;
    WholeWords(Pow2(index + 1), size);
  }

  /** The old table and the memory that becomes the new one are apart and inside the block. */
  lemma NewTableWords(a: Arena, at: nat, words: nat)
    requires Inv(a) && at in a.live && words <= a.live[at]
    ensures at + words <= |a.mem| && a.table + |a.lists| <= |a.mem|
    ensures a.lists != [] && 0 < words ==> at + words <= a.table || a.table + |a.lists| <= at
  {
    assert Owns(a.owner, at, a.live[at], Live(at));
    if a.lists != [] && 0 < words {
      OwnersDoNotOverlap(a.owner, at, words, Live(at), a.table, |a.lists|, Table);
    }
  }

  /** Writing words that no list and no table uses keeps the links. */
  lemma WriteElsewhereKeepsInv(a: Arena, w: nat, v: nat)
    requires Inv(a) && w < |a.mem| && !a.owner[w].Free? && a.owner[w] != Table
    ensures Inv(a.(mem := a.mem[w := v]))
  {
    LinkOwners(a);
    var n := a.(mem := a.mem[w := v]);
    forall i | 0 <= i < |n.lists|
      ensures EntryLinked(n.mem, n.table, n.lists, i)
    {
      assert EntryLinked(a.mem, a.table, a.lists, i);
    }
    forall i, d | 0 <= i < |n.lists| && 0 <= d < |n.lists[i]|
      ensures BlockLinked(n.mem, n.lists, i, d)
    {
      assert BlockLinked(a.mem, a.lists, i, d);
    }
    assert Regions(n) by {
      hide Links, Sizes, Owns;
      forall i, d | 0 <= i < |n.lists| && 0 <= d < |n.lists[i]|
        ensures BlockOwned(n, i, d)
      {
        assert BlockOwned(a, i, d);
      }
    }
  }

  /** Clients may write anything into their allocations. */
  lemma WriteLiveKeepsInv(a: Arena, at: nat, word: nat, v: nat)
    requires Inv(a) && at in a.live && word < a.live[at]
    ensures at + word < |a.mem| && Inv(a.(mem := a.mem[at + word := v]))
  {
    assert Owns(a.owner, at, a.live[at], Live(at));
    WriteElsewhereKeepsInv(a, at + word, v);
  }

  lemma WriteCleanupKeepsInv(a: Arena, node: nat, elem: nat, cleanup: nat)
    requires Inv(a) && node in a.cleanups
    ensures node + 1 < |a.mem| && Inv(a.(mem := a.mem[node := elem][node + 1 := cleanup]))
  {
    assert Owns(a.owner, node, 2, Cleanup(node));
    WriteElsewhereKeepsInv(a, node, elem);
    WriteElsewhereKeepsInv(a.(mem := a.mem[node := elem]), node + 1, cleanup);
  }

  lemma NothingDisturbed(a: Arena)
    requires Inv(a)
    ensures Undisturbed(a, a, None)
  {
  }

  /** Writing the two words of a node that was gap before disturbs nothing that was in use. */
  lemma WriteDisturbsNothing(before: Arena, after: Arena, node: nat, elem: nat, cleanup: nat)
    requires node + 2 <= |before.owner| && before.owner[node] == before.owner[node + 1] == Gap
    requires Undisturbed(before, after, None)
    ensures node + 2 <= |after.mem|
    ensures Undisturbed(before, after.(mem := after.mem[node := elem][node + 1 := cleanup]), None)
  {
  }
}
