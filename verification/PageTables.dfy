/** XtratuM's two-level page tables for 32-bit paging (section 4.3 of the Intel SDM, volume 3A): mapping
    and unmapping single pages, finding and mapping a free range, and tearing a directory down. */
module PageTables {
  import opened Basics

  const PAGE_SIZE := 0x1000
  const PAGE_OFFSET := 0xC000_0000
  const USER_TABLES := 768
  const ENTRIES := 1024

  // ---- addresses and entries ----

  /** `va2pd` */
  function DirIndex(va: nat): nat { va / 0x40_0000 }

  /** `va2pt` */
  function TableIndex(va: nat): nat { va / PAGE_SIZE % ENTRIES }

  /** A page the kernel can be given: aligned, and in its own part of the address space. */
  predicate IsPage(p: int) {
    p % PAGE_SIZE == 0 && PAGE_OFFSET <= p < WORD
  }

  /** The word for `p`: its physical address with the flags present, writable and user. */
  function Entry(p: int): nat
    requires PAGE_OFFSET <= p
  {
    (p - PAGE_OFFSET) / PAGE_SIZE * PAGE_SIZE + 7
  }

  predicate Present(w: nat) { w % 2 == 1 }

  /** `get_pd_addr` and `get_pt_addr` */
  function Target(w: nat): int { w / PAGE_SIZE * PAGE_SIZE + PAGE_OFFSET }

  lemma EntryTarget(p: int)
    requires IsPage(p)
    ensures Target(Entry(p)) == p && Present(Entry(p)) && Entry(p) != 0
    ensures Entry(p) % PAGE_SIZE == 7 && Entry(p) / PAGE_SIZE * PAGE_SIZE == p - PAGE_OFFSET
  {
    var q := (p - PAGE_OFFSET) / PAGE_SIZE;
    assert p - PAGE_OFFSET == q * PAGE_SIZE;
    FlagBits(q);
  }

  lemma FlagBits(q: nat)
    ensures (q * PAGE_SIZE + 7) / PAGE_SIZE == q && (q * PAGE_SIZE + 7) % PAGE_SIZE == 7 && (q * PAGE_SIZE + 7) % 2 == 1
  {
  }

  lemma Indices(va: nat)
    requires va < PAGE_OFFSET
    ensures DirIndex(va) < USER_TABLES && TableIndex(va) < ENTRIES
  {
  }

  /** Different pages of user space have different indices. */
  lemma IndicesInjective(n: nat, m: nat)
    requires DirIndex(n * PAGE_SIZE) == DirIndex(m * PAGE_SIZE) && TableIndex(n * PAGE_SIZE) == TableIndex(m * PAGE_SIZE)
    ensures n == m
  {
  }

  // ---- who owns which page ----

  /** What a page obtained from the allocator is used for: the directory, a table of it, or a page
      mapped through entry `k` of table `e`. */
  datatype Ref = Dir | Table(e: nat) | Page(e: nat, k: nat)

  type Owners = map<Ref, int>

  type Words = map<int, seq<nat>>

  /** `words` with entry `k` of the page at `p` set to `w`. */
  function Poke(words: Words, p: int, k: nat, w: nat): Words
    requires p in words && k < |words[p]|
  {
    var page: seq<nat> := words[p];
    words[p := page[k := w]]
  }

  ghost predicate Injective(at: Owners) {
    forall r, s :: r in at && s in at && r != s ==> at[r] != at[s]
  }

  function EntryFor(at: Owners, r: Ref): nat
    requires r in at ==> PAGE_OFFSET <= at[r]
  {
    if r in at then Entry(at[r]) else 0
  }

  ghost predicate Shape(at: Owners) {
    && Dir in at && (forall r :: r in at ==> IsPage(at[r]))
    && (forall e: nat :: Table(e) in at ==> e < USER_TABLES)
    && (forall e: nat, k: nat :: Page(e, k) in at ==> k < ENTRIES && Table(e) in at)
  }

  ghost predicate DirMirrors(words: Words, at: Owners, kernel: seq<nat>)
    requires Shape(at)
  {
    && at[Dir] in words && |words[at[Dir]]| == ENTRIES == |kernel|
    && (forall e :: 0 <= e < USER_TABLES ==> words[at[Dir]][e] == EntryFor(at, Table(e)))
    && (forall e :: USER_TABLES <= e < ENTRIES ==> words[at[Dir]][e] == kernel[e])
  }

  ghost predicate TableMirrors(words: Words, at: Owners, e: nat)
    requires Shape(at) && Table(e) in at
  {
    && at[Table(e)] in words && |words[at[Table(e)]]| == ENTRIES
    && forall k :: 0 <= k < ENTRIES ==> words[at[Table(e)]][k] == EntryFor(at, Page(e, k))
  }

  /** The words in memory say exactly what is owned; the entries for the kernel are those of `kernel`. */
  ghost predicate Mirrors(words: Words, at: Owners, kernel: seq<nat>) {
    && Shape(at) && Injective(at) && DirMirrors(words, at, kernel)
    && forall e :: Table(e) in at ==> TableMirrors(words, at, e)
  }

  function Zeros(): (z: seq<nat>)
    ensures |z| == ENTRIES && forall k :: 0 <= k < ENTRIES ==> z[k] == 0
  {
    seq(ENTRIES, _ => 0)
  }

  /** A page nobody owns may be overwritten. */
  lemma MirrorsFresh(words: Words, at: Owners, kernel: seq<nat>, p: int, z: seq<nat>)
    requires Mirrors(words, at, kernel) && p !in at.Values
    ensures Mirrors(words[p := z], at, kernel)
  {
    assert at[Dir] != p;
    forall e | Table(e) in at ensures TableMirrors(words[p := z], at, e) {
      assert TableMirrors(words, at, e) && at[Table(e)] != p;
    }
  }

  lemma MirrorsMapped(words: Words, at: Owners, kernel: seq<nat>, e: nat, k: nat, p: int)
    requires Mirrors(words, at, kernel) && Table(e) in at && k < ENTRIES && Page(e, k) !in at && p !in at.Values && IsPage(p)
    ensures at[Table(e)] in words && k < |words[at[Table(e)]]|
    ensures Mirrors(Poke(words, at[Table(e)], k, Entry(p)), at[Page(e, k) := p], kernel)
  {
    var t := at[Table(e)];
    assert TableMirrors(words, at, e);
    var words', at' := Poke(words, t, k, Entry(p)), at[Page(e, k) := p];
    assert DirMirrors(words', at', kernel);
    forall f | Table(f) in at' ensures TableMirrors(words', at', f) {
      assert TableMirrors(words, at, f);
      assert f != e ==> at[Table(f)] != t;
    }
  }

  lemma MirrorsTabled(words: Words, at: Owners, kernel: seq<nat>, e: nat, p: int)
    requires Mirrors(words, at, kernel) && Table(e) !in at && e < USER_TABLES && p !in at.Values && IsPage(p)
    requires p in words && words[p] == Zeros()
    ensures at[Dir] in words && e < |words[at[Dir]]|
    ensures Mirrors(Poke(words, at[Dir], e, Entry(p)), at[Table(e) := p], kernel)
  {
    var words', at' := Poke(words, at[Dir], e, Entry(p)), at[Table(e) := p];
    forall f | Table(f) in at' ensures TableMirrors(words', at', f) {
      if f != e {
        assert TableMirrors(words, at, f);
      }
    }
  }

  lemma MirrorsUnmapped(words: Words, at: Owners, kernel: seq<nat>, e: nat, k: nat)
    requires Mirrors(words, at, kernel) && Page(e, k) in at
    ensures Table(e) in at && at[Table(e)] in words && k < |words[at[Table(e)]]|
    ensures Mirrors(Poke(words, at[Table(e)], k, 0), at - {Page(e, k)}, kernel)
  {
    var t := at[Table(e)];
    assert TableMirrors(words, at, e);
    var words', at' := Poke(words, t, k, 0), at - {Page(e, k)};
    assert DirMirrors(words', at', kernel);
    forall f | Table(f) in at' ensures TableMirrors(words', at', f) {
      assert TableMirrors(words, at, f);
      assert f != e ==> at[Table(f)] != t;
    }
  }

  lemma MirrorsUntabled(words: Words, at: Owners, kernel: seq<nat>, e: nat)
    requires Mirrors(words, at, kernel) && Table(e) in at && forall k :: Page(e, k) !in at
    ensures at[Dir] in words && e < |words[at[Dir]]|
    ensures Mirrors(Poke(words, at[Dir], e, 0), at - {Table(e)}, kernel)
  {
    var words', at' := Poke(words, at[Dir], e, 0), at - {Table(e)};
    forall f | Table(f) in at' ensures TableMirrors(words', at', f) {
      assert TableMirrors(words, at, f);
    }
  }

  // ---- the supply of pages ----

  /** Every page of `all` is either available, once, or owned, once. */
  ghost predicate Pooled(avail: seq<int>, at: Owners, all: set<int>) {
    && (forall i, j :: 0 <= i < j < |avail| ==> avail[i] != avail[j])
    && (forall p :: p in avail ==> p !in at.Values)
    && (forall p :: p in all <==> p in avail || p in at.Values)
    && (forall p :: p in all ==> IsPage(p))
  }

  lemma PooledTaken(avail: seq<int>, at: Owners, all: set<int>, r: Ref)
    requires Pooled(avail, at, all) && avail != [] && r !in at
    ensures Pooled(avail[1..], at[r := avail[0]], all) && avail[0] !in at.Values && IsPage(avail[0])
  {
    var at' := at[r := avail[0]];
    var first := avail[0];
    assert first in avail;
    assert first in all;
    forall p ensures p in at'.Values <==> p in at.Values || p == avail[0] {
      if p in at.Values {
        var s :| s in at && at[s] == p;
        assert at'[s] == p;
      }
      assert at'[r] == avail[0];
    }
    forall p | p in avail ensures p in avail[1..] || p == avail[0] {
      var i :| 0 <= i < |avail| && avail[i] == p;
      assert i > 0 ==> avail[1..][i - 1] == p;
    }
  }

  lemma PooledGiven(avail: seq<int>, at: Owners, all: set<int>, r: Ref)
    requires Pooled(avail, at, all) && r in at && Injective(at)
    ensures Pooled(avail + [at[r]], at - {r}, all)
  {
    var at' := at - {r};
    forall p ensures p in at'.Values <==> p in at.Values && p != at[r] {
      if p in at.Values && p != at[r] {
        var s :| s in at && at[s] == p;
        assert at'[s] == p;
      }
    }
    assert at[r] in at.Values;
  }

  // ---- a directory and its tables ----

  class Space {
    const pd: int
    var words: Words
    var avail: seq<int>
    ghost var at: Owners
    ghost const all: set<int>
    ghost const kernel: seq<nat>

    ghost predicate Valid()
      reads this
    {
      Mirrors(words, at, kernel) && at[Dir] == pd && Pooled(avail, at, all)
    }

    /** `create_page_directory`, with `kernel` the entries of the current directory. */
    constructor (pages: seq<int>, kernel: seq<nat>)
      requires pages != [] && |kernel| == ENTRIES && (forall p :: p in pages ==> IsPage(p))
      requires forall i, j :: 0 <= i < j < |pages| ==> pages[i] != pages[j]
      ensures Valid() && at == map[Dir := pages[0]] && avail == pages[1..] && this.kernel == kernel
    {
      pd, avail := pages[0], pages[1..];
      words := map[pages[0] := Zeros()[..USER_TABLES] + kernel[USER_TABLES..]];
      at, all, this.kernel := map[Dir := pages[0]], (set p | p in pages), kernel;
      new;
      PooledTaken(pages, map[], all, Dir);
      assert map[][Dir := pages[0]] == at;
    }

    /** `alloc_page` hands out zeroed pages, and 0 when there are none. */
    method AllocPage() returns (p: int)
      modifies this`avail, this`words
      ensures p == 0 || p in old(avail)
      ensures old(avail) == [] ==> p == 0 && avail == old(avail) && words == old(words)
      ensures old(avail) != [] ==> p == old(avail)[0] && avail == old(avail)[1..] && words == old(words)[p := Zeros()]
    {
      if avail == [] {
        return 0;
      }
      p := avail[0];
      avail := avail[1..];
      words := words[p := Zeros()];
    }

    method FreePage(p: int)
      modifies this`avail
      ensures avail == old(avail) + [p]
    {
      avail := avail + [p];
    }

    lemma DirEntry(e: nat)
      requires Valid() && e < USER_TABLES
      ensures pd in words && |words[pd]| == ENTRIES
      ensures Present(words[pd][e]) <==> Table(e) in at
      ensures Table(e) in at ==> Target(words[pd][e]) == at[Table(e)] && words[pd][e] == Entry(at[Table(e)])
    {
      if Table(e) in at { EntryTarget(at[Table(e)]); }
      assert words[pd][e] == EntryFor(at, Table(e));
    }

    lemma TableEntry(e: nat, k: nat)
      requires Valid() && Table(e) in at && k < ENTRIES
      ensures at[Table(e)] in words && |words[at[Table(e)]]| == ENTRIES
      ensures Present(words[at[Table(e)]][k]) <==> Page(e, k) in at
      ensures Page(e, k) in at ==> Target(words[at[Table(e)]][k]) == at[Page(e, k)]
      ensures Page(e, k) in at ==> words[at[Table(e)]][k] == Entry(at[Page(e, k)])
      ensures words[at[Table(e)]][k] == 0 <==> Page(e, k) !in at
    {
      if Page(e, k) in at { EntryTarget(at[Page(e, k)]); }
      assert TableMirrors(words, at, e);
      assert words[at[Table(e)]][k] == EntryFor(at, Page(e, k));
    }

    lemma Owned(e: nat, k: nat)
      requires Valid()
      ensures Table(e) in at ==> IsPage(at[Table(e)])
      ensures Page(e, k) in at ==> IsPage(at[Page(e, k)]) && Table(e) in at
    {
    }

    /** What the hardware finds for a user address: if it is mapped, an entry of the directory and one of
        a table, each with the flags present (1), writable (2) and user (4), no other flag, and the
        physical address of the table and of the page; otherwise one of the two is not present. */
    lemma Walk(va: nat)
      requires Valid() && va < PAGE_OFFSET
      ensures pd in words && |words[pd]| == ENTRIES
      ensures var d := words[pd][va / 0x40_0000];
        if PageOf(va) in at then
          var t := d / PAGE_SIZE * PAGE_SIZE + PAGE_OFFSET;
          && d % PAGE_SIZE == 7 && t in words && |words[t]| == ENTRIES
          && var w := words[t][va / PAGE_SIZE % ENTRIES];
          && w % PAGE_SIZE == 7 && w / PAGE_SIZE * PAGE_SIZE == at[PageOf(va)] - PAGE_OFFSET
        else
          d % 2 == 1 ==>
            var t := d / PAGE_SIZE * PAGE_SIZE + PAGE_OFFSET;
            t in words && |words[t]| == ENTRIES && words[t][va / PAGE_SIZE % ENTRIES] % 2 == 0
    {
      hide Mirrors, Pooled;
      var e, k := DirIndex(va), TableIndex(va);
      Indices(va);
      DirEntry(e);
      Owned(e, k);
      if Table(e) in at {
        TableEntry(e, k);
        EntryTarget(at[Table(e)]);
        if Page(e, k) in at { EntryTarget(at[Page(e, k)]); }
      }
    }

    /** The first half of `allocate_user_page`: the table for entry `e`. */
    method NeedTable(e: nat) returns (t: int)
      requires Valid() && e < USER_TABLES
      modifies this
      ensures Valid() && (t == 0 <==> Table(e) !in old(at) && old(avail) == [])
      ensures if Table(e) in old(at) then at == old(at) && avail == old(avail) && t == at[Table(e)]
        else if old(avail) == [] then at == old(at) && avail == old(avail) && t == 0
        else t == old(avail)[0] != 0 && at == old(at)[Table(e) := t] && avail == old(avail)[1..]
    {
      hide Mirrors, Pooled;
      DirEntry(e);
      if !Present(words[pd][e]) {
        if avail != [] {
          PooledTaken(avail, at, all, Table(e));
          MirrorsFresh(words, at, kernel, avail[0], Zeros());
        }
        t := AllocPage();
        if t == 0 {
          return 0;
        }
        MirrorsTabled(words, at, kernel, e, t);
        words := Poke(words, pd, e, Entry(t));
        at := at[Table(e) := t];
      } else {
        t := Target(words[pd][e]);
      }
    }

    /** The second half: the page for entry `k` of the table. */
    method NeedPage(e: nat, k: nat, t: int) returns (page: int)
      requires Valid() && Table(e) in at && t == at[Table(e)] && k < ENTRIES
      modifies this
      ensures Valid()
      ensures if Page(e, k) in old(at) || old(avail) == [] then at == old(at) && avail == old(avail) && page == 0
        else page == old(avail)[0] != 0 && at == old(at)[Page(e, k) := page] && avail == old(avail)[1..]
    {
      hide Mirrors, Pooled;
      TableEntry(e, k);
      page := 0;
      if !Present(words[t][k]) {
        if avail != [] {
          PooledTaken(avail, at, all, Page(e, k));
          MirrorsFresh(words, at, kernel, avail[0], Zeros());
        }
        page := AllocPage();
        if page == 0 {
          return 0;
        }
        MirrorsMapped(words, at, kernel, e, k, page);
        words := Poke(words, t, k, Entry(page));
        at := at[Page(e, k) := page];
      }
    }

    /** `allocate_user_page`: the page for a user address that had none, and otherwise 0. A table may
        have been added in either case. */
    method AllocateUserPage(va: nat) returns (page: int)
      requires Valid()
      modifies this
      ensures Valid() && forall p :: p in avail ==> p in old(avail)
      ensures page != 0 <==>
        (va < PAGE_OFFSET && PageOf(va) !in old(at) && |old(avail)| >= if TableOf(va) in old(at) then 1 else 2)
      ensures page != 0 ==> page in old(avail) && PageOf(va) in at && at[PageOf(va)] == page
      ensures page != 0 ==>
        && pd in words && |words[pd]| == ENTRIES
        && var d := words[pd][va / 0x40_0000];
        && var t := d / PAGE_SIZE * PAGE_SIZE + PAGE_OFFSET;
        && d % PAGE_SIZE == 7 && t in words && |words[t]| == ENTRIES
        && words[t][va / PAGE_SIZE % ENTRIES] == page - PAGE_OFFSET + 7  // present, writable, user
      ensures page != 0 ==> avail == old(avail)[if TableOf(va) in old(at) then 1 else 2..]
      ensures page == 0 && va < PAGE_OFFSET && PageOf(va) !in old(at) ==> avail == []
      ensures forall r :: r in old(at) ==> r in at && at[r] == old(at)[r]
      ensures forall r :: r in at ==> r in old(at) || r == TableOf(va) || (page != 0 && r == PageOf(va))
    {
      hide Mirrors, Pooled;
      if va >= PAGE_OFFSET {
        return 0;
      }
      Indices(va);
      var t := NeedTable(DirIndex(va));
      if t == 0 {
        return 0;
      }
      page := NeedPage(DirIndex(va), TableIndex(va), t);
      Walk(va);
    }

    /** `alloc_user_range`: success maps all pages up to the end computed, none of which was mapped, to
        pages that were available; nothing else is mapped or unmapped in either case. These are the
        pages asked for exactly if the end does not wrap around. Failure has one of three causes. */
    method AllocUserRange(address: nat, offset: nat) returns (r: int)
      requires Valid() && address < WORD && offset < WORD
      modifies this
      ensures Valid() && (r == 0 || r == -1)
      ensures Extended(old(at), at, address / PAGE_SIZE, RangeEnd(address, offset) / PAGE_SIZE)
      ensures r == 0 ==> Filled(old(at), at, old(avail), address / PAGE_SIZE, RangeEnd(address, offset) / PAGE_SIZE)
      ensures r == 0 && offset > 0 ==>
        (Filled(old(at), at, old(avail), address / PAGE_SIZE, AskedEnd(address, offset)) <==> address + offset <= WORD - PAGE_SIZE)
      ensures r == -1 && avail != [] ==>
        exists n :: address / PAGE_SIZE <= n < RangeEnd(address, offset) / PAGE_SIZE && Refused(old(at), n)
      ensures RangeEnd(address, offset) <= PageBase(address) ==> r == 0 && at == old(at)
    {
      hide Mirrors, Pooled, Extended, Filled, DirIndex, TableIndex, RangeEnd;
      var start := PageBase(address);
      var end := RangeEnd(address, offset);
      var addr := start;
      ghost var first, next, last := address / PAGE_SIZE, address / PAGE_SIZE, end / PAGE_SIZE;
      NothingYet(at, avail, first);
      while addr < end
        invariant Valid() && addr == next * PAGE_SIZE && first <= next && forall p :: p in avail ==> p in old(avail)
        invariant Filled(old(at), at, old(avail), first, next) && Extended(old(at), at, first, next)
        invariant (addr == start ==> at == old(at)) && (addr <= end || addr == start)
        decreases end - addr
      {
        ghost var before := at;
        var page := AllocateUserPage(addr);
        OneMore(old(at), before, at, old(avail), first, next, page);
        Wider(old(at), at, first, next + 1, last);
        if page == 0 {
          NotYet(old(at), before, first, next);
          assert avail != [] ==> Refused(old(at), next);
          return -1;
        }
        addr := addr + PAGE_SIZE;
        next := next + 1;
      }
      if end > start {
        assert next == last;
      } else {
        Wider(old(at), at, first, next, last);
        Enough(old(at), at, old(avail), first, next, last);
      }
      ShapeHolds();
      if offset > 0 { AskedExact(old(at), at, old(avail), address, offset); }
      return 0;
    }

    /** The search of `alloc_free_user_range`. After a mapped page it goes on two pages further, so
        the first page of its answer, if not the one asked for, has not been looked at. */
    method Search(va: nat, size: nat) returns (found: bool, nva: nat)
      requires Valid()
      ensures var answer := Answer(at, PageBase(va), PageBase(va), RangeEnd(va, size), size);
        found == answer.Some? && (found ==> nva == answer.value)
      ensures nva % PAGE_SIZE == 0 && PageBase(va) <= nva && (found ==> nva < PAGE_OFFSET)
      ensures nva > PageBase(va) ==> PageNo(nva / PAGE_SIZE - 1) in at
      ensures found ==> forall n :: nva / PAGE_SIZE < n < RangeEnd(if nva == PageBase(va) then va else nva, size) / PAGE_SIZE ==>
        PageNo(n) !in at
      ensures found && nva == PageBase(va) < RangeEnd(va, size) ==> PageNo(nva / PAGE_SIZE) !in at
      ensures found ==> RangeEnd(if nva == PageBase(va) then va else nva, size) < PAGE_OFFSET
    {
      hide Mirrors, Pooled, DirIndex, TableIndex, RangeEnd, Present, Target;
      nva := PageBase(va);
      var addr, end := nva, RangeEnd(va, size);
      ghost var answer := Answer(at, nva, addr, end, size);
      ghost var m, c := va / PAGE_SIZE, va / PAGE_SIZE;
      while addr < end && addr < PAGE_OFFSET
        invariant addr == c * PAGE_SIZE && nva == m * PAGE_SIZE && PageBase(va) <= nva && m <= c
        invariant end == RangeEnd(if nva == PageBase(va) then va else nva, size)
        invariant forall n :: m < n < c ==> PageNo(n) !in at
        invariant nva > PageBase(va) ==> m > 0 && PageNo(m - 1) in at
        invariant nva == PageBase(va) && m < c ==> PageNo(m) !in at
        invariant Answer(at, nva, addr, end, size) == answer
        decreases PAGE_OFFSET + 2 * PAGE_SIZE - addr
      {
        var mapped := IsMapped(addr);
        assert PageNo(c) == PageOf(addr);
        if mapped {
          addr := addr + PAGE_SIZE;
          nva := PageBase(addr);
          end := RangeEnd(addr, size);
          m, c := c + 1, c + 1;
        }
        addr := addr + PAGE_SIZE;
        c := c + 1;
      }
      found := addr < PAGE_OFFSET;
    }

    method IsMapped(va: nat) returns (mapped: bool)
      requires Valid() && va < PAGE_OFFSET
      ensures mapped <==> PageOf(va) in at
    {
      hide Mirrors, Pooled, DirIndex, TableIndex, Target;
      var e, k := DirIndex(va), TableIndex(va);
      Indices(va);
      DirEntry(e);
      mapped := false;
      if Present(words[pd][e]) {
        var t := Target(words[pd][e]);
        TableEntry(e, k);
        mapped := Present(words[t][k]);
      } else {
        NoTableNoPage(e, k);
      }
    }

    lemma NoTableNoPage(e: nat, k: nat)
      requires Valid() && Table(e) !in at
      ensures Page(e, k) !in at
    {
    }

    /** `alloc_free_user_range`: a result other than 0 starts a range none of whose pages up to the end
        computed was mapped, and all of which now are, to different pages that were available. These are
        the pages asked for exactly if that end does not wrap around, and otherwise nothing is mapped.
        All that was mapped before still is, whatever the result. */
    method AllocFreeUserRange(va: nat, size: nat) returns (nva: nat)
      requires Valid() && va < WORD && size < WORD
      modifies this
      ensures Valid() && nva % PAGE_SIZE == 0
      ensures forall r :: r in old(at) ==> r in at && at[r] == old(at)[r]
      ensures nva != 0 ==> PageBase(va) <= nva < PAGE_OFFSET
      ensures nva != 0 ==> Filled(old(at), at, old(avail), nva / PAGE_SIZE, RangeEnd(nva, size) / PAGE_SIZE)
      ensures nva != 0 ==> Extended(old(at), at, nva / PAGE_SIZE, RangeEnd(nva, size) / PAGE_SIZE)
      ensures nva != 0 && size > 0 ==>
        (Filled(old(at), at, old(avail), nva / PAGE_SIZE, AskedEnd(nva, size)) <==> nva + size <= WORD - PAGE_SIZE)
      ensures nva != 0 && nva + size > WORD - PAGE_SIZE ==> at == old(at)
      ensures nva != 0 && 0 < size <= SAFE_SIZE ==> Filled(old(at), at, old(avail), nva / PAGE_SIZE, AskedEnd(nva, size))
      ensures var answer := Answer(old(at), PageBase(va), PageBase(va), RangeEnd(va, size), size);
        match answer
        case None => nva == 0 && at == old(at)
        case Some(s) =>
          && (nva == 0 || nva == s)
          && (nva == 0 && s != 0 ==> PageNo(s / PAGE_SIZE) in old(at) || RangeEnd(s, size) > PAGE_OFFSET || avail == [])
          && (s < RangeEnd(s, size) && (PageNo(s / PAGE_SIZE) in old(at) || RangeEnd(s, size) > PAGE_OFFSET) ==> nva == 0)
          && (RangeEnd(s, size) <= s ==> nva == s && at == old(at))
    {
      hide Mirrors, Pooled, Filled, RangeEnd, Answer, DirIndex, TableIndex;
      var found, start := Search(va, size);
      if !found {
        return 0;
      }
      WrapsToNothing(start, size);
      SearchedEnough(va, size);
      var r := AllocUserRange(start, size);
      if r != 0 {
        return 0;
      }
      ShapeHolds();
      FilledBelow(old(at), at, old(avail), start, size);
      return start;
    }

    /** `free_user_page` */
    method FreeUserPage(va: nat) returns (r: int)
      requires Valid()
      modifies this
      ensures Valid() && r == if va >= PAGE_OFFSET then -1 else 0
      ensures va >= PAGE_OFFSET ==> at == old(at) && avail == old(avail)
      ensures va < PAGE_OFFSET ==>
        var rest := old(at) - {PageOf(va)};
        at == if forall j: nat :: Page(va / 0x40_0000, j) !in rest then rest - {TableOf(va)} else rest
    {
      hide Mirrors, Pooled, TableIndex, Target, Present;
      if va >= PAGE_OFFSET {
        return -1;
      }
      var e, k := DirIndex(va), TableIndex(va);
      Indices(va);
      DirEntry(e);
      if Present(words[pd][e]) {
        var t := Target(words[pd][e]);
        TableEntry(e, k);
        if Present(words[t][k]) {
          GiveBackPage(e, k, t);
        } else {
          assert at - {Page(e, k)} == at;
        }
        ReleaseIfEmpty(e, t);
      } else {
        NoTableNothing(e, k);
      }
      return 0;
    }

    method GiveBackPage(e: nat, k: nat, t: int)
      requires Valid() && Page(e, k) in at && Table(e) in at && t == at[Table(e)]
      modifies this`words, this`avail, this`at
      ensures Valid() && at == old(at) - {Page(e, k)}
    {
      hide Pooled, Target;
      TableEntry(e, k);
      var page := Target(words[t][k]);
      MirrorsUnmapped(words, at, kernel, e, k);
      PooledGiven(avail, at, all, Page(e, k));
      words := Poke(words, t, k, 0);
      FreePage(page);
      at := at - {Page(e, k)};
    }

    /** The table is given back if all its entries are zero. */
    method ReleaseIfEmpty(e: nat, t: int)
      requires Valid() && Table(e) in at && t == at[Table(e)]
      modifies this`words, this`avail, this`at
      ensures Valid()
      ensures at == if forall j: nat :: Page(e, j) !in old(at) then old(at) - {Table(e)} else old(at)
    {
      hide Pooled, Mirrors;
      var n := FirstUsed(e, t);
      if n == ENTRIES {
        MirrorsUntabled(words, at, kernel, e);
        PooledGiven(avail, at, all, Table(e));
        words := Poke(words, pd, e, 0);
        FreePage(t);
        at := at - {Table(e)};
      }
    }

    method FirstUsed(e: nat, t: int) returns (n: nat)
      requires Valid() && Table(e) in at && t == at[Table(e)]
      ensures n <= ENTRIES && (n == ENTRIES <==> forall j: nat :: Page(e, j) !in at)
      ensures Injective(at) && Dir in at
    {
      TableEntry(e, 0);
      var pt: seq<nat> := words[t];
      n := 0;
      while n < ENTRIES && pt[n] == 0
        invariant 0 <= n <= ENTRIES && forall j: nat :: j < n ==> Page(e, j) !in at
      {
        TableEntry(e, n);
        n := n + 1;
      }
      if n < ENTRIES {
        TableEntry(e, n);
      }
    }

    lemma NoTableNothing(e: nat, k: nat)
      requires Valid() && Table(e) !in at
      ensures Unmapped(at, e, k) == at
    {
      assert at - {Page(e, k)} == at;
      assert at - {Table(e)} == at;
    }

    /** `destroy_page_directory`: nothing is owned any more, and every page ever obtained is available
        again, exactly once. */
    method DestroyPageDirectory()
      requires Valid()
      modifies this
      ensures at == map[] && Pooled(avail, map[], all)
    {
      hide Mirrors, Pooled;
      var va := 0;
      ghost var n := 0;
      while va < PAGE_OFFSET
        invariant Valid() && va == n * PAGE_SIZE && va <= PAGE_OFFSET && Swept(at, n)
        decreases PAGE_OFFSET - va
      {
        ghost var before := at;
        ShapeHolds();
        var _ := FreeUserPage(va);
        SweptNext(before, n);
        va := va + PAGE_SIZE;
        n := n + 1;
      }
      OnlyDir();
      PooledGiven(avail, at, all, Dir);
      FreePage(pd);
      at := at - {Dir};
      assert at == map[];
    }

    lemma ShapeHolds()
      requires Valid()
      ensures Shape(at)
    {
    }

    lemma OnlyDir()
      requires Valid() && Swept(at, USER_TABLES * ENTRIES)
      ensures Injective(at) && forall r :: r in at <==> r == Dir
    {
      forall e: nat, k: nat ensures Table(e) !in at && Page(e, k) !in at {
      }
      forall r ensures r in at ==> r == Dir {
        assert r == match r { case Dir => Dir case Table(e) => Table(e) case Page(e, k) => Page(e, k) };
      }
    }
  }

  function PageOf(va: nat): Ref { Page(DirIndex(va), TableIndex(va)) }

  function TableOf(va: nat): Ref { Table(DirIndex(va)) }

  /** The entry for the `n`-th page of the address space. */
  function PageNo(n: nat): Ref { PageOf(n * PAGE_SIZE) }

  lemma PageNoOf(e: nat, k: nat)
    requires k < ENTRIES
    ensures PageNo(e * ENTRIES + k) == Page(e, k)
  {
  }

  /** Different mapped pages of the address space are different pages of memory. */
  lemma PagesDistinct(at: Owners, n: nat, m: nat)
    requires Injective(at) && PageNo(n) in at && PageNo(m) in at && n != m
    ensures at[PageNo(n)] != at[PageNo(m)]
  {
    if PageNo(n) == PageNo(m) {
      IndicesInjective(n, m);
    }
  }

  // ---- ranges, in 32-bit arithmetic ----

  function PageBase(a: nat): nat { a - a % PAGE_SIZE }

  function RangeEnd(a: nat, n: nat): (end: nat)
    ensures end % PAGE_SIZE == 0
  {
    var end := (a + n) % WORD;
    if end % PAGE_SIZE == 0 then end else (PageBase(end) + PAGE_SIZE) % WORD
  }

  /** The end computed is at or behind the end asked for exactly if nothing wraps around. */
  lemma RangeEndExact(a: nat, n: nat)
    requires a < WORD && n < WORD
    ensures RangeEnd(a, n) >= a + n <==> a + n <= WORD - PAGE_SIZE
    ensures a + n <= WORD - PAGE_SIZE ==> RangeEnd(a, n) < a + n + PAGE_SIZE
  {
  }

  /** The number of the page behind the last one with an address from `a` to below `a + n`. */
  function AskedEnd(a: nat, n: nat): nat { (a + n + PAGE_SIZE - 1) / PAGE_SIZE }

  /** Sizes up to this never make the end of a range wrap around. */
  const SAFE_SIZE := WORD - PAGE_OFFSET

  lemma AskedEndExact(a: nat, n: nat)
    requires a + n <= WORD - PAGE_SIZE
    ensures RangeEnd(a, n) / PAGE_SIZE == AskedEnd(a, n)
  {
  }

  /** Of the pages asked for, those up to the end computed have been mapped: these are all exactly if
      nothing wraps around, because the last page of the address space is not a user page. */
  lemma AskedExact(before: Owners, after: Owners, supply: seq<int>, a: nat, n: nat)
    requires Shape(after) && a < WORD && 0 < n < WORD
    requires Filled(before, after, supply, a / PAGE_SIZE, RangeEnd(a, n) / PAGE_SIZE)
    ensures Filled(before, after, supply, a / PAGE_SIZE, AskedEnd(a, n)) <==> a + n <= WORD - PAGE_SIZE
  {
    hide RangeEnd;
    if a + n <= WORD - PAGE_SIZE {
      AskedEndExact(a, n);
    } else {
      var last := (a + n - 1) / PAGE_SIZE;
      NoUserPage(last);
      assert PageNo(last) !in after;
    }
  }

  lemma NoUserPage(n: nat)
    requires n * PAGE_SIZE >= PAGE_OFFSET
    ensures PageNo(n).Page? && PageNo(n).e >= USER_TABLES
  {
  }

  /** All pages of a range that has been filled are user pages. */
  lemma FilledBelow(before: Owners, after: Owners, supply: seq<int>, a: nat, n: nat)
    requires Shape(after) && a % PAGE_SIZE == 0
    requires Filled(before, after, supply, a / PAGE_SIZE, RangeEnd(a, n) / PAGE_SIZE)
    ensures a < RangeEnd(a, n) ==> RangeEnd(a, n) <= PAGE_OFFSET && PageNo(a / PAGE_SIZE) !in before
  {
    hide RangeEnd;
    if a < RangeEnd(a, n) {
      var last := RangeEnd(a, n) / PAGE_SIZE - 1;
      assert PageNo(last) in after && PageNo(a / PAGE_SIZE) !in before;
      if last * PAGE_SIZE >= PAGE_OFFSET { NoUserPage(last); }
    }
  }

  /** The page cannot be mapped: it is already, or it is not a user page. */
  predicate Refused(at: Owners, n: nat) {
    PageNo(n) in at || n * PAGE_SIZE >= PAGE_OFFSET
  }

  /** From an aligned start, a range whose end wraps around is taken for empty. */
  lemma WrapsToNothing(s: nat, size: nat)
    requires size < WORD && s % PAGE_SIZE == 0 && s < PAGE_OFFSET
    ensures s + size > WORD - PAGE_SIZE <==> RangeEnd(s, size) <= s && size > 0
  {
  }

  /** The search looks at no fewer pages than are mapped after it, unless these reach the kernel. */
  lemma SearchedEnough(va: nat, size: nat)
    requires va < WORD && size < WORD
    ensures RangeEnd(PageBase(va), size) <= RangeEnd(va, size) || RangeEnd(PageBase(va), size) > PAGE_OFFSET
      || RangeEnd(PageBase(va), size) <= PageBase(va)
  {
    hide RangeEnd;
    var b := PageBase(va);
    if va + size <= WORD - PAGE_SIZE {
      AskedEndExact(va, size);
      AskedEndExact(b, size);
    } else if b + size <= WORD - PAGE_SIZE {
      RangeEndExact(b, size);
    } else {
      WrappedEnd(b, size);
    }
  }

  lemma WrappedEnd(b: nat, size: nat)
    requires size < WORD && b < WORD && b % PAGE_SIZE == 0 && b + size > WORD - PAGE_SIZE
    ensures RangeEnd(b, size) <= b
  {
  }

  lemma RangeEndMonotone(a: nat, b: nat, n: nat)
    requires a <= b && b + n <= WORD - PAGE_SIZE
    ensures RangeEnd(a, n) <= RangeEnd(b, n)
  {
    hide RangeEnd;
    AskedEndExact(a, n);
    AskedEndExact(b, n);
  }

  // ---- where the search ends, told by the pages mapped ----

  /** Pages `q` to `t - 1`, an odd number of them, are mapped; they begin where the search began or behind
      a page not mapped. */
  ghost predicate OddRun(at: Owners, start: nat, q: nat, t: nat) {
    && start <= q < t && (t - q) % 2 == 1 && (q == start || PageNo(q - 1) !in at)
    && forall n :: q <= n < t ==> PageNo(n) in at
  }

  ghost predicate Candidate(at: Owners, start: nat, t: nat) {
    t == start || exists q: nat :: OddRun(at, start, q, t)
  }

  /** The end of the range looked at from page `t` on, in a search that begins at `va`. */
  function EndFrom(va: nat, size: nat, t: nat): nat {
    RangeEnd(if t == va / PAGE_SIZE then va else t * PAGE_SIZE, size)
  }

  /** The search can end at page `t`: it is the start or stands behind an odd run of mapped pages, the pages
      behind it are free up to the end of the range, the start itself is free as well, and all this
      lies below the kernel's part. */
  ghost predicate Stops(at: Owners, va: nat, size: nat, t: nat) {
    var start, end := va / PAGE_SIZE, EndFrom(va, size, t);
    && start <= t && Candidate(at, start, t)
    && (forall n :: t < n < end / PAGE_SIZE ==> PageNo(n) !in at)
    && (t == start && t * PAGE_SIZE < end ==> PageNo(t) !in at)
    && end < PAGE_OFFSET && (if t == start then t else t + 1) * PAGE_SIZE < PAGE_OFFSET
  }

  /** The search is under way: its candidate is page `m`, and it looks at page `c` next. */
  ghost predicate Searching(at: Owners, va: nat, m: nat, c: nat) {
    var start := va / PAGE_SIZE;
    && start <= m <= c && Candidate(at, start, m) && (m != start ==> m + 1 <= c)
    && (forall n :: m < n < c ==> PageNo(n) !in at) && (m == start && m < c ==> PageNo(m) !in at)
    && (c == start || (m != start && c == m + 1) || PageNo(c - 1) !in at)
  }

  /** A mapped page ends an odd run. */
  lemma RunGrows(at: Owners, va: nat, m: nat, c: nat)
    requires Searching(at, va, m, c) && PageNo(c) in at
    ensures Candidate(at, va / PAGE_SIZE, c + 1)
  {
    hide PageNo;
    var start := va / PAGE_SIZE;
    if c != start && m != start && c == m + 1 && PageNo(m) in at {
      var q :| OddRun(at, start, q, m);
      assert OddRun(at, start, q, c + 1);
    } else {
      assert OddRun(at, start, c, c + 1);
    }
  }

  lemma {:induction false} AnswerStops(at: Owners, va: nat, size: nat, m: nat, c: nat)
    requires Searching(at, va, m, c)
    ensures var answer := Answer(at, m * PAGE_SIZE, c * PAGE_SIZE, EndFrom(va, size, m), size);
      answer.Some? ==> answer.value % PAGE_SIZE == 0 && Stops(at, va, size, answer.value / PAGE_SIZE)
    decreases PAGE_OFFSET + 2 * PAGE_SIZE - c * PAGE_SIZE
  {
    hide RangeEnd, DirIndex, TableIndex, Candidate;
    var addr := c * PAGE_SIZE;
    if addr < PAGE_OFFSET && addr < EndFrom(va, size, m) {
      assert PageNo(c) == PageOf(addr);
      if PageNo(c) in at {
        RunGrows(at, va, m, c);
        AnswerStops(at, va, size, c + 1, c + 2);
      } else {
        AnswerStops(at, va, size, m, c + 1);
      }
    }
  }

  /** The search does not pass a page at which it can end. */
  lemma {:induction false} AnswerBefore(at: Owners, va: nat, size: nat, m: nat, c: nat, t: nat, q: nat)
    requires Stops(at, va, size, t) && Searching(at, va, m, c) && m <= t
    requires if t == va / PAGE_SIZE then true else OddRun(at, va / PAGE_SIZE, q, t)
    requires m == t || (t != va / PAGE_SIZE && c < t && (c <= q || (c - q) % 2 == 0))
    requires m == t ==> c <= (if t == va / PAGE_SIZE then t else t + 1) || c * PAGE_SIZE <= EndFrom(va, size, t)
    ensures var answer := Answer(at, m * PAGE_SIZE, c * PAGE_SIZE, EndFrom(va, size, m), size);
      answer.Some? && answer.value <= t * PAGE_SIZE
    decreases PAGE_OFFSET + 2 * PAGE_SIZE - c * PAGE_SIZE
  {
    hide RangeEnd, DirIndex, TableIndex, Candidate;
    var addr := c * PAGE_SIZE;
    if addr < EndFrom(va, size, m) && addr < PAGE_OFFSET {
      assert PageNo(c) == PageOf(addr);
      if PageNo(c) in at {
        RunGrows(at, va, m, c);
        AnswerBefore(at, va, size, c + 1, c + 2, t, q);
      } else {
        AnswerBefore(at, va, size, m, c + 1, t, q);
      }
    }
  }

  /** Where the search ends, exactly: at the first page at which it can, if there is one. */
  lemma AnswerExactly(at: Owners, va: nat, size: nat)
    ensures var answer := Answer(at, PageBase(va), PageBase(va), RangeEnd(va, size), size);
      match answer
      case None => forall t: nat :: !Stops(at, va, size, t)
      case Some(s) =>
        && s % PAGE_SIZE == 0 && Stops(at, va, size, s / PAGE_SIZE)
        && forall t: nat :: t < s / PAGE_SIZE ==> !Stops(at, va, size, t)
  {
    hide RangeEnd, DirIndex, TableIndex, Answer;
    var start := va / PAGE_SIZE;
    assert Searching(at, va, start, start) && EndFrom(va, size, start) == RangeEnd(va, size) && PageBase(va) == start * PAGE_SIZE;
    AnswerStops(at, va, size, start, start);
    var answer := Answer(at, PageBase(va), PageBase(va), RangeEnd(va, size), size);
    forall t: nat | Stops(at, va, size, t) ensures answer.Some? && answer.value <= t * PAGE_SIZE {
      var q: nat := 0;
      if t != start { q :| OddRun(at, start, q, t); }
      AnswerBefore(at, va, size, start, start, t, q);
    }
  }

  lemma {:induction false} AnswerReaches(at: Owners, nva: nat, addr: nat, end: nat, size: nat, s: nat)
    requires nva <= s && addr % PAGE_SIZE == 0 && s % PAGE_SIZE == 0 && size > 0
    requires s < RangeEnd(s, size) < PAGE_OFFSET && s + size <= WORD - PAGE_SIZE
    requires end <= RangeEnd(s, size) && addr <= RangeEnd(s, size) && end % PAGE_SIZE == 0
    requires forall n :: s / PAGE_SIZE <= n < RangeEnd(s, size) / PAGE_SIZE ==> PageNo(n) !in at
    ensures Answer(at, nva, addr, end, size).Some? && Answer(at, nva, addr, end, size).value <= s
    decreases PAGE_OFFSET + 2 * PAGE_SIZE - addr
  {
    hide RangeEnd, DirIndex, TableIndex;
    if addr < end {
      assert PageOf(addr) == PageNo(addr / PAGE_SIZE);
      if PageOf(addr) in at {
        assert addr < s;
        RangeEndMonotone(addr + PAGE_SIZE, s, size);
        AnswerReaches(at, addr + PAGE_SIZE, addr + 2 * PAGE_SIZE, RangeEnd(addr + PAGE_SIZE, size), size, s);
      } else {
        AnswerReaches(at, nva, addr + PAGE_SIZE, end, size, s);
      }
    }
  }

  /** The first page at which the search can end is mapped, so that mapping the range fails. */
  ghost predicate Missed(at: Owners, va: nat, size: nat) {
    exists t: nat :: Stops(at, va, size, t) && PageNo(t) in at && forall u: nat :: u < t ==> !Stops(at, va, size, u)
  }

  /** If a free range of the size exists at `s`, from `va` on and below the last user page, the search ends
      there or before. It is missed exactly if the first page at which the search can end is mapped, and
      only if two neighbouring pages between `va` and it are mapped. */
  lemma FreeRangeAnswered(at: Owners, va: nat, size: nat, s: nat)
    requires va <= s && s % PAGE_SIZE == 0 && 0 < size && s + size <= PAGE_OFFSET - PAGE_SIZE
    requires forall n :: s / PAGE_SIZE <= n < AskedEnd(s, size) ==> PageNo(n) !in at
    ensures var answer := Answer(at, PageBase(va), PageBase(va), RangeEnd(va, size), size);
      && answer.Some? && answer.value <= s && RangeEnd(answer.value, size) < PAGE_OFFSET
      && (PageNo(answer.value / PAGE_SIZE) in at <==> Missed(at, va, size))
    ensures Missed(at, va, size) ==>
      exists n :: va / PAGE_SIZE <= n && (n + 1) * PAGE_SIZE < s && PageNo(n) in at && PageNo(n + 1) in at
  {
    hide RangeEnd, DirIndex, TableIndex, Answer, Stops;
    var answer := Answer(at, PageBase(va), PageBase(va), RangeEnd(va, size), size);
    AskedEndExact(s, size);
    RangeEndExact(s, size);
    RangeEndMonotone(va, s, size);
    AnswerReaches(at, PageBase(va), PageBase(va), RangeEnd(va, size), size, s);
    RangeEndMonotone(answer.value, s, size);
    AnswerExactly(at, va, size);
    var t := answer.value / PAGE_SIZE;
    if PageNo(t) in at {
      RangeEndExact(va, size);
      assert PageNo(s / PAGE_SIZE) !in at;
      MappedStop(at, va, size, t);
    }
  }

  /** A mapped page at which the search can end, other than the start of an empty range, stands behind a
      mapped page. */
  lemma MappedStop(at: Owners, va: nat, size: nat, t: nat)
    requires Stops(at, va, size, t) && PageNo(t) in at && PageBase(va) < RangeEnd(va, size)
    ensures va / PAGE_SIZE < t && PageNo(t - 1) in at
  {
    hide RangeEnd, DirIndex, TableIndex;
    if t != va / PAGE_SIZE {
      var q: nat :| OddRun(at, va / PAGE_SIZE, q, t);
    }
  }

  /** A request for a single page is missed exactly if that page and the next are mapped. */
  lemma OnePageMissed(at: Owners, va: nat, size: nat)
    requires va % PAGE_SIZE == 0 && 0 < size <= PAGE_SIZE && va + 2 * PAGE_SIZE < PAGE_OFFSET
    ensures Missed(at, va, size) <==> PageOf(va) in at && PageOf(va + PAGE_SIZE) in at
  {
    hide DirIndex, TableIndex, Answer, Stops, Missed;
    OnePageAnswer(at, va, size);
    AnswerExactly(at, va, size);
    MissedAnswer(at, va, size);
  }

  lemma OnePageAnswer(at: Owners, va: nat, size: nat)
    requires va % PAGE_SIZE == 0 && 0 < size <= PAGE_SIZE && va + 2 * PAGE_SIZE < PAGE_OFFSET
    ensures Answer(at, va, va, RangeEnd(va, size), size) == Some(if PageOf(va) in at then va + PAGE_SIZE else va)
  {
    hide DirIndex, TableIndex, RangeEnd;
    OnePageEnd(va, size);
    OnePageEnd(va + PAGE_SIZE, size);
  }

  lemma OnePageEnd(a: nat, size: nat)
    requires a % PAGE_SIZE == 0 && 0 < size <= PAGE_SIZE && a < PAGE_OFFSET
    ensures RangeEnd(a, size) == a + PAGE_SIZE
  {
  }

  lemma MissedAnswer(at: Owners, va: nat, size: nat)
    ensures var answer := Answer(at, PageBase(va), PageBase(va), RangeEnd(va, size), size);
      Missed(at, va, size) <==> answer.Some? && PageNo(answer.value / PAGE_SIZE) in at
  {
    hide RangeEnd, DirIndex, TableIndex, Answer, Stops;
    AnswerExactly(at, va, size);
  }

  // ---- requests that go wrong ----

  /** On a new directory, every request that wraps around is answered by the address asked for, with
      nothing mapped. The address can be chosen so for every size above `SAFE_SIZE`. */
  method WrappingRequest(pages: seq<int>, kernel: seq<nat>, va: nat, size: nat) returns (space: Space, nva: nat)
    requires pages != [] && |kernel| == ENTRIES && (forall p :: p in pages ==> IsPage(p))
    requires forall i, j :: 0 <= i < j < |pages| ==> pages[i] != pages[j]
    requires va % PAGE_SIZE == 0 && 0 < va < PAGE_OFFSET && size < WORD && va + size > WORD - PAGE_SIZE
    ensures nva == va && space.at == map[Dir := pages[0]]
    ensures !Filled(map[Dir := pages[0]], space.at, pages[1..], nva / PAGE_SIZE, AskedEnd(nva, size))
  {
    hide RangeEnd;
    space := new Space(pages, kernel);
    WrapsToNothing(va, size);
    nva := space.AllocFreeUserRange(va, size);
    assert PageNo(va / PAGE_SIZE) !in space.at;
    assert va / PAGE_SIZE < AskedEnd(va, size);
  }

  lemma WrappingSizes(size: nat)
    requires size < WORD
    ensures size > SAFE_SIZE <==> exists va: nat :: va % PAGE_SIZE == 0 && 0 < va < PAGE_OFFSET && va + size > WORD - PAGE_SIZE
  {
    var va := PAGE_OFFSET - PAGE_SIZE;
    assert va % PAGE_SIZE == 0;
    if size > SAFE_SIZE {
      assert va + size > WORD - PAGE_SIZE;
    }
  }

  /** A directory with the pages at 0x1000 and 0x2000 mapped, the page at 0x3000 free and pages left to
      map. */
  method TwoMapped(pages: seq<int>, kernel: seq<nat>) returns (space: Space)
    requires |pages| >= 6 && |kernel| == ENTRIES && (forall p :: p in pages ==> IsPage(p))
    requires forall i, j :: 0 <= i < j < |pages| ==> pages[i] != pages[j]
    ensures fresh(space) && space.Valid() && space.avail != []
    ensures PageOf(0x1000) in space.at && PageOf(0x2000) in space.at && PageOf(0x3000) !in space.at
  {
    hide Mirrors, Pooled;
    space := new Space(pages, kernel);
    var first := space.AllocateUserPage(0x1000);
    var second := space.AllocateUserPage(0x2000);
  }

  /** There, a request for one page from 0x1000 on fails. */
  method MissedRange(space: Space) returns (nva: nat)
    requires space.Valid() && PageOf(0x1000) in space.at && PageOf(0x2000) in space.at
    modifies space
    ensures nva == 0
  {
    hide Mirrors, Pooled, Extended, Filled, DirIndex, TableIndex;
    assert Answer(space.at, 0x1000, 0x1000, RangeEnd(0x1000, 0x1000), 0x1000) == Some(0x2000);
    assert PageNo(2) == PageOf(0x2000);
    nva := space.AllocFreeUserRange(0x1000, 0x1000);
  }

  /** Where the search ends that has its candidate at `nva` and looks at `addr`, if it does so below the
      kernel. */
  ghost function Answer(at: Owners, nva: nat, addr: nat, end: nat, size: nat): Option<nat>
    decreases PAGE_OFFSET + 2 * PAGE_SIZE - addr
  {
    if addr >= PAGE_OFFSET then None
    else if addr >= end then Some(nva)
    else if PageOf(addr) in at then
      Answer(at, addr + PAGE_SIZE, addr + 2 * PAGE_SIZE, RangeEnd(addr + PAGE_SIZE, size), size)
    else Answer(at, nva, addr + PAGE_SIZE, end, size)
  }

  /** From `before` to `after` only pages numbered from `a` to below `b` have been mapped, tables may
      have been added, and nothing has been unmapped or moved. */
  ghost predicate Extended(before: Owners, after: Owners, a: nat, b: nat) {
    && (forall r :: r in before ==> r in after && after[r] == before[r])
    && (forall r :: r in after ==> r in before || r.Table? || Within(r, a, b))
  }

  ghost predicate Within(r: Ref, a: nat, b: nat) {
    exists n: nat :: a <= n < b && r == PageNo(n)
  }

  /** All pages numbered from `a` to below `b`, not mapped before, are mapped to pages of `supply`. */
  ghost predicate Filled(before: Owners, after: Owners, supply: seq<int>, a: nat, b: nat) {
    forall n: nat :: a <= n < b ==> PageNo(n) !in before && PageNo(n) in after && after[PageNo(n)] in supply
  }

  lemma NothingYet(at: Owners, supply: seq<int>, a: nat)
    ensures Extended(at, at, a, a) && Filled(at, at, supply, a, a)
  {
  }

  lemma Wider(before: Owners, after: Owners, a: nat, b: nat, c: nat)
    requires Extended(before, after, a, b)
    ensures b <= a || b <= c ==> Extended(before, after, a, c)
  {
    forall r | r in after && (b <= a || b <= c) ensures r in before || r.Table? || Within(r, a, c) {
    }
  }

  /** One call of `allocate_user_page` for page `n`. */
  lemma OneMore(start: Owners, before: Owners, after: Owners, supply: seq<int>, a: nat, n: nat, page: int)
    requires Extended(start, before, a, n) && Filled(start, before, supply, a, n) && a <= n
    requires page != 0 ==> PageNo(n) !in before && page in supply && PageNo(n) in after && after[PageNo(n)] == page
    requires forall r :: r in before ==> r in after && after[r] == before[r]
    requires forall r :: r in after ==> r in before || r.Table? || (page != 0 && r == PageNo(n))
    ensures Extended(start, after, a, n + 1) && (page != 0 ==> Filled(start, after, supply, a, n + 1))
  {
    hide PageNo;
    forall r | r in after ensures r in start || r.Table? || Within(r, a, n + 1) {
    }
  }

  /** Page `n` is not among those mapped on the way to it. */
  lemma NotYet(start: Owners, before: Owners, a: nat, n: nat)
    requires Extended(start, before, a, n)
    ensures PageNo(n) in before ==> PageNo(n) in start
  {
    if PageNo(n) in before && PageNo(n) !in start {
      assert Within(PageNo(n), a, n);
      var m: nat :| a <= m < n && PageNo(n) == PageNo(m);
      IndicesInjective(n, m);
    }
  }

  lemma Enough(start: Owners, after: Owners, supply: seq<int>, a: nat, n: nat, b: nat)
    requires Filled(start, after, supply, a, n) && b <= n
    ensures Filled(start, after, supply, a, b)
  {
  }

  /** The owners after the page at (e, k) has been given back, and its table with it if that became or
      already was empty. */
  ghost function Unmapped(at: Owners, e: nat, k: nat): Owners {
    var rest := at - {Page(e, k)};
    if forall j: nat :: Page(e, j) !in rest then rest - {Table(e)} else rest
  }

  /** The first `n` pages of user space are not mapped, and the tables for them alone are gone. */
  ghost predicate Swept(at: Owners, n: nat) {
    && (forall m: nat :: m < n ==> PageNo(m) !in at)
    && (forall e: nat :: (e + 1) * ENTRIES <= n ==> Table(e) !in at)
  }

  lemma SweptNext(at: Owners, n: nat)
    requires Shape(at) && Swept(at, n)
    ensures Swept(Unmapped(at, DirIndex(n * PAGE_SIZE), TableIndex(n * PAGE_SIZE)), n + 1)
  {
    var e, k := DirIndex(n * PAGE_SIZE), TableIndex(n * PAGE_SIZE);
    var after := Unmapped(at, e, k);
    assert PageNo(n) == Page(e, k);
    Numbered(n);
    if n + 1 == (e + 1) * ENTRIES {
      forall j: nat ensures Page(e, j) !in at - {Page(e, k)} {
        if j < k {
          PageNoOf(e, j);
          assert PageNo(e * ENTRIES + j) !in at;
        }
      }
    }
  }

  lemma Numbered(n: nat)
    ensures n == DirIndex(n * PAGE_SIZE) * ENTRIES + TableIndex(n * PAGE_SIZE)
  {
  }
}
