/** Shadow memory as the runtime keeps it: pages allocated on demand, walked by
    iterators that cache a pointer into the current page and refresh it only
    when they cross into another page. */
module ShadowPages {
  import opened Exprs
  import opened ShadowMaps

  const PAGE_SIZE: nat := 4096

  type Page = array<SymExpr>

  function PageStart(a: nat): (p: nat)
    ensures p <= a < p + PAGE_SIZE && p % PAGE_SIZE == 0
  {
    a / PAGE_SIZE * PAGE_SIZE
  }

  function PageOffset(a: nat): (o: nat)
    ensures o < PAGE_SIZE && a == PageStart(a) + o
  {
    a % PAGE_SIZE
  }

  predicate InPage(a: nat, p: nat) { p <= a < p + PAGE_SIZE }

  function PageSpan(p: nat): (s: set<nat>)
    ensures forall a: nat :: a in s <==> InPage(a, p)
  {
    set a: nat | p <= a < p + PAGE_SIZE && InPage(a, p)
  }

  lemma InOwnPage(a: nat)
    ensures a in PageSpan(PageStart(a))
  {
  }

  class ShadowMemory {
    var pages: map<nat, Page>
    ghost var repr: set<object>

    constructor ()
      ensures Valid() && fresh(repr) && Flat() == map[]
    {
      pages, repr := map[], {};
    }

    ghost predicate Valid()
      reads this
    {
      && (forall p :: p in pages ==> pages[p] in repr && pages[p].Length == PAGE_SIZE)
      && (forall p, q :: p in pages && q in pages && p != q ==> pages[p] != pages[q])
    }

    /** The shadow of one byte: null when its page does not exist. */
    ghost function At(a: nat): (e: SymExpr)
      requires Valid()
      reads this, repr
    {
      if PageStart(a) in pages then pages[PageStart(a)][PageOffset(a)] else None
    }

    /** The flat map that the pages represent. */
    ghost function Flat(): (m: ShadowMap)
      requires Valid()
      reads this, repr
      ensures forall a: nat :: a in m <==> At(a).Some?
      ensures forall a: nat :: a in m ==> At(a) == Some(m[a])
    {
      var dom := set p: nat, a: nat | p in pages && a in PageSpan(p) :: a;
      assert forall a: nat {:trigger PageStart(a)} :: PageStart(a) in pages ==> a in dom by {
        forall a: nat | PageStart(a) in pages
          ensures a in dom
        {
          InOwnPage(a);
        }
      }
      map a: nat | a in dom && At(a).Some? :: At(a).value
    }

    lemma MissingPage(a: nat)
      requires Valid() && PageStart(a) !in pages
      ensures At(a) == None
    {
    }

    /** The page of an address, or null. */
    method GetShadow(address: nat) returns (page: array?<SymExpr>)
      requires Valid()
      ensures page == if PageStart(address) in pages then pages[PageStart(address)] else null
    {
      if PageStart(address) in pages {
        page := pages[PageStart(address)];
      } else {
        page := null;
      }
    }

    /** Creating a page is invisible in the flat map. */
    method GetOrCreateShadow(address: nat) returns (page: Page)
      requires Valid()
      modifies this
      ensures Valid() && repr >= old(repr) && fresh(repr - old(repr))
      ensures PageStart(address) in pages && page == pages[PageStart(address)]
      ensures forall p :: p in old(pages) ==> p in pages && pages[p] == old(pages[p])
      ensures forall a: nat :: At(a) == old(At(a))
    {
      if PageStart(address) in pages {
        page := pages[PageStart(address)];
        return;
      }
      page := new SymExpr[PAGE_SIZE](_ => None);
      pages, repr := pages[PageStart(address) := page], repr + {page};
      assert forall p :: p in old(pages) ==> pages[p] == old(pages[p]);
    }
  }

  class ReadShadowIterator {
    const memory: ShadowMemory
    var address: nat
    var page: array?<SymExpr>
    var index: int

    /** A cached pointer is always right; a cached null may be out of date. */
    ghost predicate Valid()
      reads this, memory
    {
      && memory.Valid()
      && (page != null ==> PageStart(address) in memory.pages && page == memory.pages[PageStart(address)]
                           && index == PageOffset(address))
    }

    constructor (memory: ShadowMemory, address: nat)
      requires memory.Valid()
      ensures Valid() && this.memory == memory && this.address == address
      ensures page == null ==> PageStart(address) !in memory.pages
    {
      this.memory, this.address := memory, address;
      this.index := PageOffset(address);
      this.page := null;
      new;
      page := memory.GetShadow(address);
    }

    method Increment()
      requires Valid()
      modifies this
      ensures Valid() && address == old(address) + 1
      ensures PageStart(address) == PageStart(old(address)) ==> page == old(page)
      ensures PageStart(address) != PageStart(old(address)) && page == null ==> PageStart(address) !in memory.pages
      ensures forall a: nat :: memory.At(a) == old(memory.At(a))
    {
      var previousAddress := address;
      address := address + 1;
      if page != null {
        index := index + 1;
      }
      if PageStart(address) != PageStart(previousAddress) {
        page := memory.GetShadow(address);
        index := PageOffset(address);
      }
    }

    method Decrement()
      requires Valid() && address > 0
      modifies this
      ensures Valid() && address == old(address) - 1
      ensures PageStart(address) == PageStart(old(address)) ==> page == old(page)
      ensures PageStart(address) != PageStart(old(address)) && page == null ==> PageStart(address) !in memory.pages
      ensures forall a: nat :: memory.At(a) == old(memory.At(a))
    {
      var previousAddress := address;
      address := address - 1;
      if page != null {
        index := index - 1;
      }
      if PageStart(address) != PageStart(previousAddress) {
        page := memory.GetShadow(address);
        index := PageOffset(address);
      }
    }

    method Deref() returns (e: SymExpr)
      requires Valid()
      ensures e == if page == null then None else memory.At(address)
    {
      if page != null {
        e := page[index];
      } else {
        e := None;
      }
    }
  }

  class WriteShadowIterator {
    const memory: ShadowMemory
    var address: nat
    var page: Page
    var index: int

    ghost predicate Valid()
      reads this, memory
    {
      && memory.Valid()
      && PageStart(address) in memory.pages && page == memory.pages[PageStart(address)]
      && index == PageOffset(address)
    }

    constructor (memory: ShadowMemory, address: nat)
      requires memory.Valid()
      modifies memory
      ensures Valid() && this.memory == memory && this.address == address
      ensures memory.repr >= old(memory.repr) && fresh(memory.repr - old(memory.repr))
      ensures forall p :: p in old(memory.pages) ==> p in memory.pages && memory.pages[p] == old(memory.pages[p])
      ensures forall a: nat :: memory.At(a) == old(memory.At(a))
    {
      var page := memory.GetOrCreateShadow(address);
      this.memory, this.address := memory, address;
      this.page, this.index := page, PageOffset(address);
    }

    method Increment()
      requires Valid()
      modifies this, memory
      ensures Valid() && address == old(address) + 1
      ensures memory.repr >= old(memory.repr) && fresh(memory.repr - old(memory.repr))
      ensures forall p :: p in old(memory.pages) ==> p in memory.pages && memory.pages[p] == old(memory.pages[p])
      ensures forall a: nat :: memory.At(a) == old(memory.At(a))
    {
      var previousAddress := address;
      address := address + 1;
      index := index + 1;
      if PageStart(address) != PageStart(previousAddress) {
        page := memory.GetOrCreateShadow(address);
        index := PageOffset(address);
      }
    }

    method Decrement()
      requires Valid() && address > 0
      modifies this, memory
      ensures Valid() && address == old(address) - 1
      ensures memory.repr >= old(memory.repr) && fresh(memory.repr - old(memory.repr))
      ensures forall p :: p in old(memory.pages) ==> p in memory.pages && memory.pages[p] == old(memory.pages[p])
      ensures forall a: nat :: memory.At(a) == old(memory.At(a))
    {
      var previousAddress := address;
      address := address - 1;
      index := index - 1;
      if PageStart(address) != PageStart(previousAddress) {
        page := memory.GetOrCreateShadow(address);
        index := PageOffset(address);
      }
    }

    method Assign(e: SymExpr)
      requires Valid()
      modifies page
      ensures Valid()
      ensures forall a: nat :: memory.At(a) == if a == address then e else old(memory.At(a))
    {
      page[index] := e;
    }
  }
}
