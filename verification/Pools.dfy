/** The memory pools of `amqp_mem.c`: a bump allocator over pages that are kept when a pool is recycled. */
module Pools {
  import opened Wire

  //////////////////////////////////////////////////////////////////////////////
  // Where allocations go
  //////////////////////////////////////////////////////////////////////////////

  const SIZE_MODULUS: nat := 0x1_0000_0000_0000_0000

  /** A requested amount rounded up to 8 octets, in the arithmetic of `size_t`. */
  function Rounded(amount: nat): (r: nat)
    ensures r % 8 == 0
  {
    (amount + 7) % SIZE_MODULUS / 8 * 8
  }

  /** Rounding never loses octets, up to where it wraps around. */
  lemma RoundedCoversIff(amount: nat)
    requires amount < SIZE_MODULUS
    ensures amount <= Rounded(amount) <==> amount <= SIZE_MODULUS - 8
    ensures 0 < amount <= SIZE_MODULUS - 8 ==> 0 < Rounded(amount) < amount + 8
  {
  }

  /** Multiples of eight are left alone, and the others are rounded up. */
  lemma RoundedSamples(n: nat)
    requires 8 * n + 8 <= SIZE_MODULUS - 8
    ensures Rounded(8 * n) == 8 * n && Rounded(8 * n + 1) == 8 * n + 8 && Rounded(8 * n + 7) == 8 * n + 8
    ensures Rounded(0xFFFF_FFFF_FFFF_FFFF) == 0
  {
  }

  /** A place in the pool: nowhere, in a block of its own, or in a page. */
  datatype Place = Nowhere | Large(index: nat) | OnPage(page: nat, offset: nat)

  /** The pages in use, what is used of the last of them, and the number of large blocks. */
  datatype Cursor = Cursor(pages: nat, used: nat, larges: nat)

  const START: Cursor := Cursor(0, 0, 0)

  /** There is room in the page at hand. */
  predicate Room(pagesize: nat, c: Cursor, size: nat) {
    c.pages > 0 && c.used + size <= pagesize
  }

  /** The cursor after an allocation. */
  function Advance(pagesize: nat, c: Cursor, amount: nat): Cursor {
    var size := Rounded(amount);
    if amount == 0 then c
    else if size > pagesize then c.(larges := c.larges + 1)
    else if Room(pagesize, c, size) then c.(used := c.used + size)
    else Cursor(c.pages + 1, size, c.larges)
  }

  /** Where an allocation goes. */
  function PlaceOf(pagesize: nat, c: Cursor, amount: nat): Place {
    var size := Rounded(amount);
    if amount == 0 then Nowhere
    else if size > pagesize then Large(c.larges)
    else if Room(pagesize, c, size) then OnPage(c.pages - 1, c.used)
    else OnPage(c.pages, 0)
  }

  /** The cursor after some allocations. It depends on the amounts alone: not on how many pages the pool
      had to begin with. */
  function CursorAfter(pagesize: nat, amounts: seq<nat>): Cursor {
    if amounts == [] then START
    else Advance(pagesize, CursorAfter(pagesize, amounts[..|amounts| - 1]), amounts[|amounts| - 1])
  }

  /** Where the `i`-th of them went. */
  function PlaceAt(pagesize: nat, amounts: seq<nat>, i: nat): Place
    requires i < |amounts|
  {
    PlaceOf(pagesize, CursorAfter(pagesize, amounts[..i]), amounts[i])
  }

  /** Pages of 64 octets: where allocations go, one after the other. */
  lemma PlaceSamples()
    ensures Advance(64, START, 10) == Cursor(1, 16, 0) && PlaceOf(64, START, 10) == OnPage(0, 0)
    ensures Advance(64, Cursor(1, 16, 0), 20) == Cursor(1, 40, 0) && PlaceOf(64, Cursor(1, 16, 0), 20) == OnPage(0, 16)
    ensures Advance(64, Cursor(1, 40, 0), 0) == Cursor(1, 40, 0) && PlaceOf(64, Cursor(1, 40, 0), 0) == Nowhere
    ensures Advance(64, Cursor(1, 40, 0), 65) == Cursor(1, 40, 1) && PlaceOf(64, Cursor(1, 40, 0), 65) == Large(0)
    ensures Advance(64, Cursor(1, 40, 1), 24) == Cursor(1, 64, 1) && PlaceOf(64, Cursor(1, 40, 1), 24) == OnPage(0, 40)
    ensures Advance(64, Cursor(1, 64, 1), 1) == Cursor(2, 8, 1) && PlaceOf(64, Cursor(1, 64, 1), 1) == OnPage(1, 0)
  {
  }

  lemma CursorStep(pagesize: nat, amounts: seq<nat>, amount: nat)
    ensures CursorAfter(pagesize, amounts + [amount]) == Advance(pagesize, CursorAfter(pagesize, amounts), amount)
    ensures forall i | 0 <= i < |amounts| :: PlaceAt(pagesize, amounts + [amount], i) == PlaceAt(pagesize, amounts, i)
    ensures PlaceAt(pagesize, amounts + [amount], |amounts|) == PlaceOf(pagesize, CursorAfter(pagesize, amounts), amount)
  {
    hide Advance, PlaceOf;
    var all := amounts + [amount];
    assert all[..|all| - 1] == amounts && all[..|amounts|] == amounts;
    assert forall i | 0 <= i < |amounts| :: all[..i] == amounts[..i];
  }

  //////////////////////////////////////////////////////////////////////////////
  // Allocations do not overlap
  //////////////////////////////////////////////////////////////////////////////

  /** The octets of a place lie before the cursor. */
  predicate Before(pagesize: nat, p: Place, size: nat, c: Cursor) {
    match p
    case Nowhere => true
    case Large(index) => index < c.larges
    case OnPage(page, offset) =>
      page < c.pages && offset + size <= pagesize && (page == c.pages - 1 ==> offset + size <= c.used)
  }

  predicate Apart(p: Place, pSize: nat, q: Place, qSize: nat) {
    match p
    case Nowhere => true
    case Large(_) => p != q
    case OnPage(page, offset) =>
      q.OnPage? && q.page == page ==> offset + pSize <= q.offset || q.offset + qSize <= offset
  }

  lemma AdvanceKeeps(pagesize: nat, c: Cursor, amount: nat, p: Place, size: nat)
    requires Before(pagesize, p, size, c)
    ensures Before(pagesize, p, size, Advance(pagesize, c, amount))
    ensures Apart(p, size, PlaceOf(pagesize, c, amount), Rounded(amount))
    ensures Before(pagesize, PlaceOf(pagesize, c, amount), Rounded(amount), Advance(pagesize, c, amount))
  {
    hide Rounded;
  }

  lemma {:induction false} PlacedBefore(pagesize: nat, amounts: seq<nat>, i: nat)
    requires i < |amounts|
    ensures Before(pagesize, PlaceAt(pagesize, amounts, i), Rounded(amounts[i]), CursorAfter(pagesize, amounts))
  {
    hide Advance, PlaceOf, Before, Apart, Rounded;
    var last := |amounts| - 1;
    var init := amounts[..last];
    assert init + [amounts[last]] == amounts;
    CursorStep(pagesize, init, amounts[last]);
    if i < last {
      PlacedBefore(pagesize, init, i);
      AdvanceKeeps(pagesize, CursorAfter(pagesize, init), amounts[last], PlaceAt(pagesize, init, i), Rounded(amounts[i]));
    } else {
      NowhereBefore(pagesize, CursorAfter(pagesize, init));
      AdvanceKeeps(pagesize, CursorAfter(pagesize, init), amounts[last], Nowhere, 0);
    }
  }

  lemma NowhereBefore(pagesize: nat, c: Cursor)
    ensures Before(pagesize, Nowhere, 0, c)
  {
  }

  /** Between recycles no two allocations share an octet, and each lies inside its page. */
  lemma PlacesAreApart(pagesize: nat, amounts: seq<nat>, i: nat, j: nat)
    requires i < j < |amounts|
    ensures Apart(PlaceAt(pagesize, amounts, i), Rounded(amounts[i]), PlaceAt(pagesize, amounts, j), Rounded(amounts[j]))
  {
    hide Advance, PlaceOf, Before, Apart, Rounded;
    var prefix := amounts[..j];
    assert prefix[..i] == amounts[..i];
    PlacedBefore(pagesize, prefix, i);
    AdvanceKeeps(pagesize, CursorAfter(pagesize, prefix), amounts[j], PlaceAt(pagesize, prefix, i), Rounded(amounts[i]));
  }

  /** What is used of a page, and so every offset, is a multiple of 8. */
  lemma {:induction false} CursorIsAligned(pagesize: nat, amounts: seq<nat>)
    ensures Aligned(pagesize, CursorAfter(pagesize, amounts))
  {
    if amounts != [] {
      var init, last := amounts[..|amounts| - 1], amounts[|amounts| - 1];
      CursorIsAligned(pagesize, init);
      AdvanceAligned(pagesize, CursorAfter(pagesize, init), last);
    }
  }

  predicate Aligned(pagesize: nat, c: Cursor) {
    c.used % 8 == 0 && c.used <= pagesize && (c.pages == 0 ==> c.used == 0)
  }

  lemma AdvanceAligned(pagesize: nat, c: Cursor, amount: nat)
    requires Aligned(pagesize, c)
    ensures Aligned(pagesize, Advance(pagesize, c, amount))
    ensures var p := PlaceOf(pagesize, c, amount); p.OnPage? ==> p.offset % 8 == 0
  {
    hide Rounded;
  }

  //////////////////////////////////////////////////////////////////////////////
  // How many pages it takes
  //////////////////////////////////////////////////////////////////////////////

  /** The octets served from pages. */
  function Served(pagesize: nat, amounts: seq<nat>): nat {
    if amounts == [] then 0
    else
      var size := Rounded(amounts[|amounts| - 1]);
      Served(pagesize, amounts[..|amounts| - 1]) + if size <= pagesize then size else 0
  }

  /** Pages are at least half full on the average: the next page is begun only when what is left of the
      last one is too small. */
  lemma {:induction false} NextFit(pagesize: nat, amounts: seq<nat>)
    requires forall a | a in amounts :: a <= SIZE_MODULUS - 8
    ensures var c := CursorAfter(pagesize, amounts);
            c.pages > 0 ==> 2 * Served(pagesize, amounts) - c.used > (c.pages - 1) * pagesize
  {
    if amounts != [] {
      var init, last := amounts[..|amounts| - 1], amounts[|amounts| - 1];
      assert last in amounts && forall a | a in init :: a in amounts;
      NextFit(pagesize, init);
      RoundedCoversIff(last);
      AdvanceFills(pagesize, CursorAfter(pagesize, init), last, Served(pagesize, init));
    }
  }

  lemma AdvanceFills(pagesize: nat, c: Cursor, amount: nat, served: nat)
    requires c.pages > 0 ==> 2 * served - c.used > (c.pages - 1) * pagesize
    requires amount > 0 ==> Rounded(amount) > 0
    ensures var d, size := Advance(pagesize, c, amount), Rounded(amount);
            d.pages > 0 ==> 2 * (served + (if 0 < size <= pagesize then size else 0)) - d.used > (d.pages - 1) * pagesize
  {
    hide Rounded;
    if c.pages > 0 {
      assert c.pages * pagesize == (c.pages - 1) * pagesize + pagesize;
    }
  }

  /** More allocations never need fewer pages. */
  lemma {:induction false} CursorGrows(pagesize: nat, amounts: seq<nat>, i: nat)
    requires i <= |amounts|
    ensures CursorAfter(pagesize, amounts[..i]).pages <= CursorAfter(pagesize, amounts).pages
  {
    hide Rounded;
    if i < |amounts| {
      var init := amounts[..|amounts| - 1];
      assert init[..i] == amounts[..i];
      CursorGrows(pagesize, init, i);
    } else {
      assert amounts[..i] == amounts;
    }
  }

  //////////////////////////////////////////////////////////////////////////////
  // The pool
  //////////////////////////////////////////////////////////////////////////////

  datatype Address = Null | To(block: array<byte>, offset: nat)

  /** `amqp_pool_t`. */
  class Pool {
    const pagesize: nat
    var pages: seq<array<byte>>
    var largeBlocks: seq<array<byte>>
    var nextPage: nat
    var allocBlock: array?<byte>
    var allocUsed: nat

    /** What was asked for since the pool was last recycled, and what was given out. */
    ghost var amounts: seq<nat>
    ghost var given: seq<Address>

    /** How often the pool was recycled. */
    ghost var epoch: nat

    /** `init_amqp_pool`. */
    constructor (pagesize: nat)
      ensures Valid() && amounts == [] && pages == [] && epoch == 0 && this.pagesize == if pagesize != 0 then pagesize else 4096
    {
      this.pagesize := if pagesize != 0 then pagesize else 4096;
      pages, largeBlocks, nextPage, allocBlock, allocUsed := [], [], 0, null, 0;
      amounts, given, epoch := [], [], 0;
    }

    /** The address of a place. */
    ghost predicate Locates(p: Place, address: Address)
      reads this
    {
      match p
      case Nowhere => address == Null
      case Large(index) => index < |largeBlocks| && address == To(largeBlocks[index], 0)
      case OnPage(page, offset) => page < |pages| && address == To(pages[page], offset)
    }

    /** The blocks are all different, and the fields say where the cursor is. */
    ghost predicate ValidBlocks()
      reads this
    {
      var c := CursorAfter(pagesize, amounts);
      && c == Cursor(nextPage, allocUsed, |largeBlocks|) && nextPage <= |pages|
      && allocBlock == (if nextPage == 0 then null else pages[nextPage - 1])
      && (forall i | 0 <= i < |pages| :: pages[i].Length == pagesize && pages[i] !in largeBlocks)
      && (forall i, j | 0 <= i < j < |pages| :: pages[i] != pages[j])
      && (forall i, j | 0 <= i < j < |largeBlocks| :: largeBlocks[i] != largeBlocks[j])
    }

    ghost predicate Valid()
      reads this
    {
      && pagesize > 0 && ValidBlocks() && |given| == |amounts|
      && (forall i | 0 <= i < |amounts| :: Locates(PlaceAt(pagesize, amounts, i), given[i]))
      && (forall i | 0 <= i < |amounts| && PlaceAt(pagesize, amounts, i).Large? ::
            given[i].To? && given[i].block.Length == Rounded(amounts[i]))
    }

    /** `recycle_amqp_pool`: large blocks are freed, pages are kept. */
    method Recycle()
      requires Valid()
      modifies this
      ensures Valid() && amounts == [] && pages == old(pages) && epoch == old(epoch) + 1
    {
      largeBlocks, nextPage, allocBlock, allocUsed := [], 0, null, 0;
      amounts, given, epoch := [], [], epoch + 1;
    }

    /** `empty_amqp_pool`. */
    method Empty()
      requires Valid()
      modifies this
      ensures Valid() && amounts == [] && pages == []
    {
      Recycle();
      pages := [];
    }

    /** `amqp_pool_alloc`: the address is that of the place the amounts so far determine, and a page is
        added only when all pages are in use. */
    method Alloc(amount: nat) returns (p: Address)
      requires Valid() && amount < SIZE_MODULUS
      modifies this
      ensures Valid() && amounts == old(amounts) + [amount] && given == old(given) + [p] && epoch == old(epoch)
      ensures old(pages) <= pages && |pages| == if nextPage > |old(pages)| then nextPage else |old(pages)|
    {
      hide Rounded, CursorAfter, PlaceAt;
      CursorStep(pagesize, amounts, amount);
      ghost var place := PlaceOf(pagesize, CursorAfter(pagesize, amounts), amount);
      var size := Rounded(amount);
      if amount == 0 {
        p := Null;
      } else if size > pagesize {
        var block := new byte[size](_ => 0);
        largeBlocks := largeBlocks + [block];
        p := To(block, 0);
      } else if allocBlock != null && allocUsed + size <= pagesize {
        p := To(allocBlock, allocUsed);
        allocUsed := allocUsed + size;
      } else {
        if nextPage >= |pages| {
          allocBlock := new byte[pagesize](_ => 0);
          pages := pages + [allocBlock];
          nextPage := |pages|;
        } else {
          allocBlock := pages[nextPage];
          nextPage := nextPage + 1;
        }
        allocUsed := size;
        p := To(allocBlock, 0);
      }
      amounts, given := amounts + [amount], given + [p];
    }

    /** A pool is recycled and asked for other amounts, which do not need more pages than it has: it gets
        no new page. Asked for the same amounts again, it gives out the same addresses in its pages. */
    method Replay(wanted: seq<nat>)
      requires Valid() && CursorAfter(pagesize, wanted).pages <= |pages|
      requires forall k | 0 <= k < |wanted| :: wanted[k] < SIZE_MODULUS
      modifies this
      ensures Valid() && amounts == wanted && pages == old(pages) && epoch == old(epoch) + 1
      ensures wanted == old(amounts) ==>
                forall i | 0 <= i < |wanted| && PlaceAt(pagesize, wanted, i).OnPage? :: given[i] == old(given[i])
    {
      hide CursorAfter, PlaceAt;
      ghost var before, kept := given, pages;
      assert wanted == amounts ==> forall i | 0 <= i < |wanted| ::
          Locates(PlaceAt(pagesize, wanted, i), before[i]);
      Recycle();
      for k := 0 to |wanted|
        invariant Valid() && amounts == wanted[..k] && pages == kept && epoch == old(epoch) + 1
      {
        ReplayAddsNoPage(pagesize, wanted, k + 1, |pages|);
        assert wanted[..k] + [wanted[k]] == wanted[..k + 1];
        var p := Alloc(wanted[k]);
        assert pages == kept;
      }
      assert wanted[..|wanted|] == wanted;
      assert forall i | 0 <= i < |wanted| :: Locates(PlaceAt(pagesize, wanted, i), given[i]);
    }

    /** Two addresses given out since the last recycle share no octet, are aligned and lie in a block
        of the pool. */
    lemma GivenAreApart(i: nat, j: nat)
      requires Valid() && i < j < |amounts|
      ensures InBlock(given[i], Rounded(amounts[i]))
      ensures given[i].To? && given[j].To? && given[i].block == given[j].block ==>
                given[i].offset + Rounded(amounts[i]) <= given[j].offset
                || given[j].offset + Rounded(amounts[j]) <= given[i].offset
    {
      hide Rounded, CursorAfter, PlaceAt, Advance, PlaceOf;
      PlacesAreApart(pagesize, amounts, i, j);
      GivenIsInBlock(i);
      GivenIsInBlock(j);
    }

    /** The octets are those of a page or a large block of the pool. */
    ghost predicate InBlock(p: Address, size: nat)
      reads this
    {
      p.To? ==> (p.block in pages || p.block in largeBlocks) && p.offset % 8 == 0 && p.offset + size <= p.block.Length
    }

    lemma GivenIsInBlock(i: nat)
      requires Valid() && i < |amounts|
      ensures InBlock(given[i], Rounded(amounts[i]))
      ensures PlaceAt(pagesize, amounts, i).OnPage? ==> PlaceAt(pagesize, amounts, i).page < nextPage
    {
      hide Rounded, CursorAfter, Advance, PlaceOf;
      PlacedBefore(pagesize, amounts, i);
      CursorIsAligned(pagesize, amounts[..i]);
      AdvanceAligned(pagesize, CursorAfter(pagesize, amounts[..i]), amounts[i]);
      assert Locates(PlaceAt(pagesize, amounts, i), given[i]);
    }

    /** When a pool that kept its pages is asked for the same amounts again, it gives out the same
        addresses in them. */
    twostate lemma ReplayedAddresses(i: nat)
      requires old(Valid()) && Valid() && amounts == old(amounts) && old(pages) <= pages && i < |amounts|
      ensures PlaceAt(pagesize, amounts, i).OnPage? ==> given[i] == old(given[i])
    {
      hide Rounded, CursorAfter, PlaceAt, Advance, PlaceOf;
      assert Locates(PlaceAt(pagesize, amounts, i), given[i]) && old(Locates(PlaceAt(pagesize, amounts, i), given[i]));
    }
  }

  /** A pool that has all the pages a run of allocations needs gets no new one while the run is
      repeated. */
  lemma ReplayAddsNoPage(pagesize: nat, amounts: seq<nat>, i: nat, pages: nat)
    requires i <= |amounts| && CursorAfter(pagesize, amounts).pages <= pages
    ensures CursorAfter(pagesize, amounts[..i]).pages <= pages
  {
    CursorGrows(pagesize, amounts, i);
  }
}
