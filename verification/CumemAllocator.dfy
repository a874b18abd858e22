/** vllm/csrc/cumem_allocator.cpp, the ROCm paths: an allocation is split into chunks, each chunk is
    created and then mapped, and a failure on the way is rolled back. The driver is modelled by the
    handles and mappings it holds, and by faults that may hit any call. */
module CumemAllocator {
  import opened Common
  import opened Bits

  // ---- sizes -------------------------------------------------------------------------------------

  const MB: nat := 1024 * 1024
  const ULLONG_MAX: nat := 0xFFFF_FFFF_FFFF_FFFF
  const DEFAULT_MEMCREATE_CHUNK_SIZE: nat := 256 * MB

  /** The chunk size setting in megabytes, if it is set and parses. */
  function ChunkSizeSetting(env: Option<nat>): (size: nat)
    ensures 0 < size < 0x1_0000_0000_0000_0000
    ensures if env.Some? && 0 < env.value * 1048576 < 0x1_0000_0000_0000_0000 then size == env.value * 1048576
            else size == 268435456
  {
    if env == None || env.value == 0 || env.value > ULLONG_MAX / MB then DEFAULT_MEMCREATE_CHUNK_SIZE
    else env.value * MB
  }

  function AlignUp(size: nat, granularity: nat): (r: nat)
    requires granularity > 0
    ensures size <= r < size + granularity && IsMultiple(r, granularity)
  {
    CeilDivBounds(size, granularity);
    CeilDiv(size, granularity) * granularity
  }

  ghost predicate IsMultiple(n: int, g: nat) {
    exists k: int :: n == k * g
  }

  /** The chunks of an allocation: positive multiples of the granularity that add up to its size. */
  ghost predicate Tiles(sizes: seq<nat>, total: nat, granularity: nat) {
    && Sum(sizes) == total
    && forall i :: 0 <= i < |sizes| ==> sizes[i] > 0 && IsMultiple(sizes[i], granularity)
  }

  lemma MultipleOfDifference(a: int, b: int, g: nat)
    requires IsMultiple(a, g) && IsMultiple(b, g)
    ensures IsMultiple(a - b, g)
  {
    var i, j :| a == i * g && b == j * g;
    assert a - b == (i - j) * g;
  }

  lemma MultipleOfProduct(n: int, a: int, g: nat)
    requires IsMultiple(a, g)
    ensures IsMultiple(n * a, g)
  {
    var i :| a == i * g;
    assert n * a == (n * i) * g;
  }

  /** The sizing loop of `my_malloc`. */
  method ChunkSizes(size: nat, granularity: nat, setting: Option<nat>) returns (sizes: seq<nat>, alignedSize: nat)
    requires granularity > 0
    ensures size <= alignedSize < size + granularity && IsMultiple(alignedSize, granularity)
    ensures Tiles(sizes, alignedSize, granularity)
    ensures var chunk := AlignUp(ChunkSizeSetting(setting), granularity);
            && |sizes| == CeilDiv(alignedSize, chunk)
            && forall i :: 0 <= i < |sizes| - 1 ==> sizes[i] == chunk
  {
    alignedSize := ((size + granularity - 1) / granularity) * granularity;
    var baseChunk := ChunkSizeSetting(setting);
    var alignedChunkSize := ((baseChunk + granularity - 1) / granularity) * granularity;
    CeilDivBounds(size, granularity);
    CeilDivBounds(baseChunk, granularity);
    assert IsMultiple(alignedChunkSize, granularity) && IsMultiple(alignedSize, granularity);
    var numChunks := (alignedSize + alignedChunkSize - 1) / alignedChunkSize;
    CeilDivBounds(alignedSize, alignedChunkSize);
    sizes := [];
    for i := 0 to numChunks
      invariant |sizes| == i
      invariant Sum(sizes) == Min(i * alignedChunkSize, alignedSize)
      invariant forall x :: 0 <= x < i ==> sizes[x] > 0 && IsMultiple(sizes[x], granularity)
      invariant forall x :: 0 <= x < i && x < numChunks - 1 ==> sizes[x] == alignedChunkSize
    {
      RoomForChunk(i, numChunks, alignedChunkSize, alignedSize);
      MultipleOfProduct(i, alignedChunkSize, granularity);
      MultipleOfDifference(alignedSize, i * alignedChunkSize, granularity);
      var chunk := Min(alignedSize - i * alignedChunkSize, alignedChunkSize);
      assert (sizes + [chunk])[..i] == sizes;
      sizes := sizes + [chunk];
    }
  }

  lemma RoomForChunk(i: nat, n: nat, chunk: nat, total: nat)
    requires i < n && chunk > 0 && total <= n * chunk < total + chunk
    ensures i * chunk < total && (i + 1) * chunk == i * chunk + chunk
    ensures i + 1 < n ==> (i + 1) * chunk <= total
  {
    assert (n - 1) * chunk == n * chunk - chunk;
    assert (i + 1) * chunk == i * chunk + chunk;
    MulMonotone(i, n - 1, chunk);
    if i + 1 < n {
      MulMonotone(i + 1, n - 1, chunk);
    }
  }

  // ---- the driver --------------------------------------------------------------------------------

  /** A handle stands for physical memory of a size. */
  datatype Handle = Handle(id: int, size: nat)

  datatype Mapping = Mapping(size: nat, handle: Handle)

  /** What the driver holds: handles that are not released, mappings by address, and the addresses that
      have read and write access. */
  datatype DriverState = DriverState(live: set<Handle>, maps: map<int, Mapping>, access: set<int>)

  predicate Overlaps(maps: map<int, Mapping>, address: int, size: nat) {
    exists a :: a in maps && a < address + size && address < a + maps[a].size
  }

  predicate IsMapped(maps: map<int, Mapping>, x: int) {
    exists a :: a in maps && a <= x < a + maps[a].size
  }

  /** All `size` addresses from `address` on are mapped. */
  predicate Backed(maps: map<int, Mapping>, address: int, size: nat) {
    forall x :: address <= x < address + size ==> IsMapped(maps, x)
  }

  ghost predicate AccessBacked(maps: map<int, Mapping>, access: set<int>) {
    forall x {:trigger IsMapped(maps, x)} :: x in access ==> IsMapped(maps, x)
  }

  function Span(address: int, size: nat): (r: set<int>)
    ensures forall x :: x in r <==> address <= x < address + size
  {
    if size == 0 then {} else Span(address, size - 1) + {address + size - 1}
  }

  const INVALID_VALUE: int := 1

  /** The driver's calls. A fault is an error code that a call returns for reasons of its own; a call
      with invalid arguments fails too. A failed call changes nothing. */
  class Driver {
    var live: set<Handle>
    var maps: map<int, Mapping>
    var access: set<int>
    var nextHandle: int
    var calls: nat
    const createFault: nat -> int
    const mapFault: nat -> int
    const accessFault: nat -> int
    const unmapFault: nat -> int
    const releaseFault: nat -> int

    function State(): DriverState
      reads this
    {
      DriverState(live, maps, access)
    }

    ghost predicate Valid()
      reads this
    {
      && (forall h :: h in live ==> h.id < nextHandle)
      && (forall a :: a in maps ==> maps[a].size > 0)
      && AccessBacked(maps, access)
    }

    /** Unmapping and releasing what is there never fails. */
    ghost predicate CleanupWorks() {
      forall n :: unmapFault(n) == 0 && releaseFault(n) == 0
    }

    constructor (createFault: nat -> int, mapFault: nat -> int, accessFault: nat -> int,
                 unmapFault: nat -> int, releaseFault: nat -> int)
      ensures Valid() && State() == DriverState({}, map[], {}) && calls == 0
    {
      live, maps, access, nextHandle, calls := {}, map[], {}, 0, 0;
      this.createFault, this.mapFault, this.accessFault := createFault, mapFault, accessFault;
      this.unmapFault, this.releaseFault := unmapFault, releaseFault;
    }

    method MemCreate(size: nat) returns (status: int, handle: Handle)
      requires Valid()
      modifies this
      ensures Valid() && calls == old(calls) + 1 && status == createFault(old(calls)) && handle.size == size
      ensures if status == 0 then handle !in old(live) && State() == old(State()).(live := old(live) + {handle})
              else State() == old(State())
    {
      status, handle := createFault(calls), Handle(nextHandle, size);
      calls := calls + 1;
      if status == 0 {
        live, nextHandle := live + {handle}, nextHandle + 1;
      }
    }

    method MemMap(address: int, size: nat, handle: Handle) returns (status: int)
      requires Valid()
      modifies this
      ensures Valid() && calls == old(calls) + 1
      ensures var invalid := handle !in old(live) || size == 0 || handle.size < size
                             || old(Overlaps(maps, address, size));
              status == if mapFault(old(calls)) != 0 then mapFault(old(calls)) else if invalid then INVALID_VALUE else 0
      ensures State() == if status == 0 then old(State()).(maps := old(maps)[address := Mapping(size, handle)])
                         else old(State())
    {
      status := mapFault(calls);
      calls := calls + 1;
      if status == 0 && (handle !in live || size == 0 || handle.size < size || Overlaps(maps, address, size)) {
        status := INVALID_VALUE;
      }
      if status == 0 {
        StillMapped(maps, address, Mapping(size, handle), access);
        maps := maps[address := Mapping(size, handle)];
      }
    }

    method MemSetAccess(address: int, size: nat) returns (status: int)
      requires Valid()
      modifies this
      ensures Valid() && calls == old(calls) + 1
      ensures status == if accessFault(old(calls)) != 0 then accessFault(old(calls))
                        else if Backed(old(maps), address, size) then 0 else INVALID_VALUE
      ensures State() == if status == 0 then old(State()).(access := old(access) + Span(address, size))
                         else old(State())
    {
      status := accessFault(calls);
      calls := calls + 1;
      if status == 0 && !Backed(maps, address, size) {
        status := INVALID_VALUE;
      }
      if status == 0 {
        access := access + Span(address, size);
      }
    }

    /** Unmapping takes the access away as well. */
    method MemUnmap(address: int, size: nat) returns (status: int)
      requires Valid()
      modifies this
      ensures Valid() && calls == old(calls) + 1
      ensures State() == if status == 0
                         then old(State()).(maps := old(maps) - {address}, access := old(access) - Span(address, size))
                         else old(State())
      ensures status == if unmapFault(old(calls)) != 0 then unmapFault(old(calls))
                        else if address in old(maps) && old(maps)[address].size == size then 0 else INVALID_VALUE
    {
      status := unmapFault(calls);
      calls := calls + 1;
      if status == 0 && (address !in maps || maps[address].size != size) {
        status := INVALID_VALUE;
      }
      if status == 0 {
        MappedElsewhere(maps, address, access);
        maps, access := maps - {address}, access - Span(address, size);
      }
    }

    method MemRelease(handle: Handle) returns (status: int)
      requires Valid()
      modifies this
      ensures Valid() && calls == old(calls) + 1
      ensures State() == if status == 0 then old(State()).(live := old(live) - {handle}) else old(State())
      ensures status == if releaseFault(old(calls)) != 0 then releaseFault(old(calls))
                        else if handle in old(live) then 0 else INVALID_VALUE
    {
      status := releaseFault(calls);
      calls := calls + 1;
      if status == 0 && handle !in live {
        status := INVALID_VALUE;
      }
      if status == 0 {
        live := live - {handle};
      }
    }
  }

  lemma StillMapped(maps: map<int, Mapping>, address: int, m: Mapping, access: set<int>)
    requires AccessBacked(maps, access)
    requires forall a :: a in maps ==> maps[a].size > 0
    requires m.size > 0 && !Overlaps(maps, address, m.size)
    ensures AccessBacked(maps[address := m], access)
  {
    OccupiedOverlaps(maps, address, m.size);
    var maps' := maps[address := m];
    forall x | x in access
      ensures IsMapped(maps', x)
    {
      assert IsMapped(maps, x);
      var a :| a in maps && a <= x < a + maps[a].size;
      assert a in maps' && maps'[a] == maps[a];
    }
  }

  lemma MappedElsewhere(maps: map<int, Mapping>, address: int, access: set<int>)
    requires address in maps && AccessBacked(maps, access)
    ensures AccessBacked(maps - {address}, access - Span(address, maps[address].size))
  {
    var maps' := maps - {address};
    forall x | x in access - Span(address, maps[address].size)
      ensures IsMapped(maps', x)
    {
      assert IsMapped(maps, x);
      var a :| a in maps && a <= x < a + maps[a].size;
      assert a in maps';
    }
  }

  // ---- the chunks in the driver ------------------------------------------------------------------

  function Offset(sizes: seq<nat>, i: nat): (p: nat)
    requires i <= |sizes|
  {
    if i == 0 then 0 else Offset(sizes, i - 1) + sizes[i - 1]
  }

  /** The size of all chunks. */
  function Total(sizes: seq<nat>): (n: nat) {
    Offset(sizes, |sizes|)
  }

  lemma {:induction false} OffsetIsSum(sizes: seq<nat>, i: nat)
    requires i <= |sizes|
    ensures Offset(sizes, i) == Sum(sizes[..i])
  {
    if i > 0 {
      OffsetIsSum(sizes, i - 1);
      assert sizes[..i][..i - 1] == sizes[..i - 1];
    }
  }

  lemma TotalIsSum(sizes: seq<nat>)
    ensures Total(sizes) == Sum(sizes)
  {
    OffsetIsSum(sizes, |sizes|);
    assert sizes[..|sizes|] == sizes;
  }

  lemma {:induction false} OffsetsGrow(sizes: seq<nat>, i: nat, j: nat)
    requires i < j <= |sizes| && AllPositive(sizes)
    ensures Offset(sizes, i) + sizes[i] <= Offset(sizes, j)
    decreases j
  {
    if i < j - 1 {
      OffsetsGrow(sizes, i, j - 1);
      assert sizes[j - 1] > 0;
    }
  }

  predicate AllPositive(sizes: seq<nat>) {
    forall i :: 0 <= i < |sizes| ==> sizes[i] > 0
  }

  /** Chunk `i` of those from `base` on starts at `a`. */
  predicate StartsAt(base: int, sizes: seq<nat>, i: nat, a: int)
    requires i < |sizes|
  {
    a == base + Offset(sizes, i)
  }

  /** Chunks lo to hi, mapped one behind the other from `base` on. */
  function Mapped(base: int, sizes: seq<nat>, handles: seq<Handle>, lo: nat, hi: nat): (m: map<int, Mapping>)
    requires hi <= |sizes| && hi <= |handles|
  {
    if lo >= hi then map[]
    else
      var i := hi - 1;
      Mapped(base, sizes, handles, lo, i)[base + Offset(sizes, i) := Mapping(sizes[i], handles[i])]
  }

  lemma MappedAt(base: int, sizes: seq<nat>, handles: seq<Handle>, lo: nat, hi: nat, a: int)
    requires hi <= |sizes| && hi <= |handles| && AllPositive(sizes)
    ensures a in Mapped(base, sizes, handles, lo, hi) <==> exists i :: lo <= i < hi && StartsAt(base, sizes, i, a)
    ensures forall i :: lo <= i < hi && StartsAt(base, sizes, i, a) ==>
              a in Mapped(base, sizes, handles, lo, hi)
              && Mapped(base, sizes, handles, lo, hi)[a] == Mapping(sizes[i], handles[i])
  {
    if a in Mapped(base, sizes, handles, lo, hi) {
      StartsChunk(base, sizes, handles, lo, hi, a);
    }
    forall i | lo <= i < hi && StartsAt(base, sizes, i, a)
      ensures a in Mapped(base, sizes, handles, lo, hi)
              && Mapped(base, sizes, handles, lo, hi)[a] == Mapping(sizes[i], handles[i])
    {
      ChunkIsMapped(base, sizes, handles, lo, hi, i);
    }
  }

  lemma {:induction false} StartsChunk(base: int, sizes: seq<nat>, handles: seq<Handle>, lo: nat, hi: nat, a: int)
    requires hi <= |sizes| && hi <= |handles| && a in Mapped(base, sizes, handles, lo, hi)
    ensures exists i :: lo <= i < hi && StartsAt(base, sizes, i, a)
    decreases hi
  {
    var last := hi - 1;
    if a == base + Offset(sizes, last) {
      assert StartsAt(base, sizes, last, a);
    } else {
      StartsChunk(base, sizes, handles, lo, last, a);
    }
  }

  lemma {:induction false} ChunkIsMapped(base: int, sizes: seq<nat>, handles: seq<Handle>, lo: nat, hi: nat, i: nat)
    requires lo <= i < hi <= |sizes| && hi <= |handles| && AllPositive(sizes)
    ensures base + Offset(sizes, i) in Mapped(base, sizes, handles, lo, hi)
    ensures Mapped(base, sizes, handles, lo, hi)[base + Offset(sizes, i)] == Mapping(sizes[i], handles[i])
    decreases hi
  {
    var last := hi - 1;
    if i < last {
      ChunkIsMapped(base, sizes, handles, lo, last, i);
      OffsetsGrow(sizes, i, last);
    }
  }

  /** The chunks are contiguous: every address of the range lies in one chunk, and in only one. */
  lemma {:induction false} CoveredOnce(sizes: seq<nat>, n: nat, x: nat)
    requires n <= |sizes| && AllPositive(sizes) && x < Offset(sizes, n)
    ensures exists i :: 0 <= i < n && InChunk(sizes, i, x)
    ensures forall i, j :: 0 <= i < n && 0 <= j < n && InChunk(sizes, i, x) && InChunk(sizes, j, x) ==> i == j
  {
    if x < Offset(sizes, n - 1) {
      CoveredOnce(sizes, n - 1, x);
    } else {
      assert InChunk(sizes, n - 1, x);
    }
    forall i, j | 0 <= i < j < n
      ensures !(InChunk(sizes, i, x) && InChunk(sizes, j, x))
    {
      OffsetsGrow(sizes, i, j);
    }
  }

  predicate InChunk(sizes: seq<nat>, i: nat, x: int)
    requires i < |sizes|
  {
    Offset(sizes, i) <= x < Offset(sizes, i) + sizes[i]
  }

  /** Taking the first chunk away leaves the others. */
  lemma MappedWithoutFirst(base: int, sizes: seq<nat>, handles: seq<Handle>, lo: nat, hi: nat)
    requires lo < hi <= |sizes| && hi <= |handles| && AllPositive(sizes)
    ensures var a := base + Offset(sizes, lo);
            && a in Mapped(base, sizes, handles, lo, hi)
            && Mapped(base, sizes, handles, lo, hi)[a] == Mapping(sizes[lo], handles[lo])
            && Mapped(base, sizes, handles, lo, hi) - {a} == Mapped(base, sizes, handles, lo + 1, hi)
  {
    var m, m' := Mapped(base, sizes, handles, lo, hi), Mapped(base, sizes, handles, lo + 1, hi);
    var a := base + Offset(sizes, lo);
    MappedAt(base, sizes, handles, lo, hi, a);
    assert StartsAt(base, sizes, lo, a);
    forall b
      ensures b in m - {a} <==> b in m'
      ensures b in m' ==> m[b] == m'[b]
    {
      MappedAt(base, sizes, handles, lo, hi, b);
      MappedAt(base, sizes, handles, lo + 1, hi, b);
      forall i | lo < i < hi && StartsAt(base, sizes, i, b)
        ensures b > a
      {
        OffsetsGrow(sizes, lo, i);
      }
    }
  }

  lemma DropMapped(before: DriverState, base: int, sizes: seq<nat>, handles: seq<Handle>, lo: nat, hi: nat)
    requires lo < hi <= |sizes| && hi <= |handles| && AllPositive(sizes) && Separate(before, base, sizes, hi)
    ensures var a, m := base + Offset(sizes, lo), before.maps + Mapped(base, sizes, handles, lo, hi);
            && a in m && m[a].size == sizes[lo]
            && m - {a} == before.maps + Mapped(base, sizes, handles, lo + 1, hi)
  {
    MappedWithoutFirst(base, sizes, handles, lo, hi);
    assert Free(before, base, sizes, lo);
  }

  lemma DropCreated(before: set<Handle>, handles: seq<Handle>, i: nat, n: nat)
    requires i < n <= |handles| && AllNew(handles, n, before)
    ensures var live := before + (Created(handles, n) - Created(handles, i));
            && handles[i] in live
            && live - {handles[i]} == before + (Created(handles, n) - Created(handles, i + 1))
  {
    CreatedHas(handles, i, n);
    assert New(handles, i, before);
  }

  /** The mappings do not touch those of `before`, nor what has access there. */
  ghost predicate Separate(before: DriverState, base: int, sizes: seq<nat>, n: nat)
    requires n <= |sizes|
  {
    && (forall i {:trigger Free(before, base, sizes, i)} :: 0 <= i < n ==> Free(before, base, sizes, i))
    && before.access !! Span(base, Offset(sizes, n))
  }

  /** Nothing is mapped where chunk `i` starts. */
  ghost predicate Free(before: DriverState, base: int, sizes: seq<nat>, i: nat)
    requires i < |sizes|
  {
    base + Offset(sizes, i) !in before.maps
  }

  /** The first `n` handles. */
  function Created(handles: seq<Handle>, n: nat): (r: set<Handle>)
    requires n <= |handles|
  {
    if n == 0 then {} else Created(handles, n - 1) + {handles[n - 1]}
  }

  lemma {:induction false} CreatedPrefix(hs: seq<Handle>, hs': seq<Handle>, n: nat)
    requires n <= |hs| && n <= |hs'| && hs[..n] == hs'[..n]
    ensures Created(hs, n) == Created(hs', n)
  {
    if n > 0 {
      assert hs[..n][..n - 1] == hs[..n - 1] && hs'[..n][..n - 1] == hs'[..n - 1];
      assert hs[n - 1] == hs[..n][n - 1] == hs'[n - 1];
      CreatedPrefix(hs, hs', n - 1);
    }
  }

  /** No handle was there before, and none is created twice. */
  ghost predicate AllNew(handles: seq<Handle>, n: nat, before: set<Handle>)
    requires n <= |handles|
  {
    forall i {:trigger New(handles, i, before)} :: 0 <= i < n ==> New(handles, i, before)
  }

  ghost predicate New(handles: seq<Handle>, i: nat, before: set<Handle>)
    requires i < |handles|
  {
    handles[i] !in before + Created(handles, i)
  }

  lemma {:induction false} CreatedHas(handles: seq<Handle>, i: nat, n: nat)
    requires i < n <= |handles|
    ensures handles[i] in Created(handles, n)
  {
    if i < n - 1 {
      CreatedHas(handles, i, n - 1);
    }
  }

  /** The handles have the sizes of their chunks. */
  ghost predicate OfSizes(handles: seq<Handle>, sizes: seq<nat>, n: nat)
    requires n <= |handles| && n <= |sizes|
  {
    forall i :: 0 <= i < n ==> handles[i].size == sizes[i]
  }

  /** The first `n` chunks created, and the first `m` mapped, on top of what was there before. */
  ghost predicate Holds(s: DriverState, before: DriverState, base: int, sizes: seq<nat>, handles: seq<Handle>,
                        n: nat, m: nat)
    requires n <= |handles| && n <= |sizes| && m <= |sizes| && m <= |handles|
  {
    HoldsHandles(s.live, before.live, sizes, handles, n) && HoldsMappings(s, before, base, sizes, handles, m)
  }

  ghost predicate HoldsHandles(live: set<Handle>, before: set<Handle>, sizes: seq<nat>, handles: seq<Handle>, n: nat)
    requires n <= |handles| && n <= |sizes|
  {
    live == before + Created(handles, n) && AllNew(handles, n, before) && OfSizes(handles, sizes, n)
  }

  ghost predicate HoldsMappings(s: DriverState, before: DriverState, base: int, sizes: seq<nat>, handles: seq<Handle>,
                                m: nat)
    requires m <= |sizes| && m <= |handles|
  {
    && s.maps == before.maps + Mapped(base, sizes, handles, 0, m) && Separate(before, base, sizes, m)
    && s.access == before.access
  }

  /** Nothing is mapped in the range and nothing has access to it, as after its reservation. */
  ghost predicate Reserved(s: DriverState, address: int, size: nat) {
    !Overlaps(s.maps, address, size) && s.access !! Span(address, size)
  }

  /** The first fault among `n` calls from call `from` on, or 0. */
  function FirstFault(fault: nat -> int, from: nat, n: nat): (e: int) {
    if n == 0 then 0
    else if FirstFault(fault, from, n - 1) != 0 then FirstFault(fault, from, n - 1)
    else fault(from + n - 1)
  }

  /** It is 0 exactly if none of the calls has a fault, and otherwise that of a call before which none has. */
  lemma {:induction false} FirstFaultIff(fault: nat -> int, from: nat, n: nat)
    ensures FirstFault(fault, from, n) == 0 <==> forall c :: from <= c < from + n ==> fault(c) == 0
    ensures FirstFault(fault, from, n) != 0 ==>
              exists c :: from <= c < from + n && FirstFault(fault, from, n) == fault(c)
                          && forall d :: from <= d < c ==> fault(d) == 0
  {
    if n > 0 {
      FirstFaultIff(fault, from, n - 1);
    }
  }

  /** Once there is a fault, later calls do not count. */
  lemma {:induction false} LaterFaults(fault: nat -> int, from: nat, i: nat, n: nat)
    requires i < n
    ensures FirstFault(fault, from, i) == 0 && fault(from + i) != 0 ==> FirstFault(fault, from, n) == fault(from + i)
    decreases n
  {
    if i < n - 1 {
      LaterFaults(fault, from, i, n - 1);
    }
  }

  // ---- creating, mapping, and undoing it ---------------------------------------------------------

  /** Where a call of `create_and_map` went wrong, if it did. */
  datatype Stage = Creating | Mapping_ | Access | Nowhere

  class Allocator {
    var errorCode: int
    const driver: Driver

    constructor (driver: Driver)
      ensures this.driver == driver && errorCode == 0
    {
      this.driver, errorCode := driver, 0;
    }

    method CudaCheck(status: int)
      modifies this
      ensures errorCode == if status != 0 then status else old(errorCode)
    {
      if status != 0 {
        errorCode := status;
      }
    }

    /** Release the handles lo to hi, ignoring the statuses. */
    method ReleaseHandles(handles: array<Handle>, n: nat, ghost before: set<Handle>)
      requires n <= handles.Length && driver.Valid()
      requires driver.live == before + Created(handles[..], n) && AllNew(handles[..], n, before)
      modifies driver
      ensures driver.Valid() && driver.maps == old(driver.maps) && driver.access == old(driver.access)
      ensures driver.CleanupWorks() || n == 0 ==> driver.live == before
    {
      ghost var hs := handles[..];
      for j := 0 to n
        invariant driver.Valid() && driver.maps == old(driver.maps) && driver.access == old(driver.access)
        invariant j == 0 ==> driver.live == old(driver.live)
        invariant driver.CleanupWorks() ==> driver.live == before + (Created(hs, n) - Created(hs, j))
      {
        DropCreated(before, hs, j, n);
        var status := driver.MemRelease(handles[j]);
      }
    }

    /** First phase. On a failure the handles created so far are released. A code left over from an
        earlier call counts as a failure of the first creation, even if that has succeeded. */
    method CreateAll(handles: array<Handle>, sizes: seq<nat>)
      requires handles.Length >= |sizes| && driver.Valid()
      modifies this, driver, handles
      ensures driver.Valid() && driver.maps == old(driver.maps) && driver.access == old(driver.access)
      ensures |sizes| == 0 ==> errorCode == old(errorCode) && driver.State() == old(driver.State())
      ensures old(errorCode) == 0 ==> errorCode == FirstFault(driver.createFault, old(driver.calls), |sizes|)
      ensures errorCode == 0 ==> driver.calls == old(driver.calls) + |sizes|
      ensures old(errorCode) != 0 && |sizes| > 0 ==>
                && errorCode != 0
                && (driver.live == old(driver.live)
                    || (handles[0] !in old(driver.live) && driver.live == old(driver.live) + {handles[0]}))
                && (driver.createFault(old(driver.calls)) == 0 <==> driver.live != old(driver.live))
      ensures old(errorCode) == 0 && errorCode != 0 && driver.CleanupWorks() ==> driver.State() == old(driver.State())
      ensures errorCode == 0 ==> Holds(driver.State(), old(driver.State()), 0, sizes, handles[..], |sizes|, 0)
    {
      ghost var before := driver.live;
      for i := 0 to |sizes|
        invariant driver.Valid() && driver.maps == old(driver.maps) && driver.access == old(driver.access)
        invariant i == 0 ==> errorCode == old(errorCode)
        invariant i > 0 ==> errorCode == 0 && old(errorCode) == 0
        invariant driver.calls == old(driver.calls) + i
        invariant FirstFault(driver.createFault, old(driver.calls), i) == 0
        invariant driver.live == before + Created(handles[..], i) && AllNew(handles[..], i, before)
        invariant OfSizes(handles[..], sizes, i)
      {
        ghost var hs := handles[..];
        var status, handle := driver.MemCreate(sizes[i]);
        if status == 0 {
          handles[i] := handle;
        }
        NewHandle(hs, handles[..], i, before);
        CudaCheck(status);
        if errorCode != 0 {
          LaterFaults(driver.createFault, old(driver.calls), i, |sizes|);
          ReleaseHandles(handles, i, if status == 0 then driver.live else before);
          return;
        }
      }
    }

    /** Maps chunk `i`. In a reserved range the call fails only by its fault. */
    method MapOne(address: int, handle: Handle, ghost dMem: int, sizes: seq<nat>, i: nat, ghost before: DriverState,
                  ghost hs: seq<Handle>, ghost calls: nat, ghost reserved: bool) returns (status: int)
      requires i < |sizes| <= |hs| && handle == hs[i] && driver.Valid() && AllPositive(sizes)
      requires address == dMem + Offset(sizes, i) && (reserved ==> Reserved(before, dMem, Total(sizes)))
      requires Holds(driver.State(), before, dMem, sizes, hs, |sizes|, i)
      requires calls + i == driver.calls && (reserved ==> FirstFault(driver.mapFault, calls, i) == 0)
      modifies driver
      ensures driver.Valid() && driver.calls == old(driver.calls) + 1
      ensures Holds(driver.State(), before, dMem, sizes, hs, |sizes|, if status == 0 then i + 1 else i)
      ensures reserved ==> FirstFault(driver.mapFault, calls, if status == 0 then i + 1 else |sizes|) == status
    {
      LaterFaults(driver.mapFault, calls, i, |sizes|);
      ghost var s := driver.State();
      CreatedHas(hs, i, |sizes|);
      Mappable(s, before, dMem, sizes, hs, i);
      status := driver.MemMap(address, sizes[i], handle);
      if status == 0 {
        HoldsOneMore(s, driver.State(), before, dMem, sizes, hs, i);
      }
    }

    /** What happens when chunk `i` cannot be mapped. */
    method Rollback(dMem: int, handles: array<Handle>, sizes: seq<nat>, i: nat, ghost before: DriverState,
                    ghost hs: seq<Handle>)
      requires i < |sizes| <= handles.Length && driver.Valid() && AllPositive(sizes)
      requires hs == handles[..] && Holds(driver.State(), before, dMem, sizes, hs, |sizes|, i)
      modifies driver
      ensures driver.Valid()
      ensures driver.CleanupWorks() ==> driver.State() == before
    {
      UnmapChunks(dMem, sizes, i, before, hs);
      ReleaseHandles(handles, |sizes|, before.live);
    }

    /** Second phase. On a failure the chunks mapped so far are unmapped and all handles released. */
    method MapAll(dMem: int, handles: array<Handle>, sizes: seq<nat>, ghost before: DriverState)
      requires handles.Length >= |sizes| && driver.Valid() && errorCode == 0 && AllPositive(sizes)
      requires Holds(driver.State(), before, dMem, sizes, handles[..], |sizes|, 0)
      modifies this, driver
      ensures driver.Valid()
      ensures |sizes| == 0 ==> errorCode == 0
      ensures errorCode == 0 ==> Holds(driver.State(), before, dMem, sizes, handles[..], |sizes|, |sizes|)
      ensures errorCode != 0 && driver.CleanupWorks() ==> driver.State() == before
      ensures Reserved(before, dMem, Total(sizes)) ==>
                errorCode == FirstFault(driver.mapFault, old(driver.calls), |sizes|)
      ensures errorCode == 0 ==> driver.calls == old(driver.calls) + |sizes|
    {
      ghost var calls, hs, reserved := driver.calls, handles[..], Reserved(before, dMem, Total(sizes));
      var n, allocatedSize: nat := |sizes|, 0;
      for i := 0 to n
        invariant driver.Valid() && errorCode == 0 && driver.calls == calls + i && allocatedSize == Offset(sizes, i)
        invariant Holds(driver.State(), before, dMem, sizes, hs, n, i)
        invariant reserved ==> FirstFault(driver.mapFault, calls, i) == 0
      {
        var status := MapOne(dMem + allocatedSize, handles[i], dMem, sizes, i, before, hs, calls, reserved);
        CudaCheck(status);
        if errorCode != 0 {
          Rollback(dMem, handles, sizes, i, before, hs);
          return;
        }
        allocatedSize := allocatedSize + sizes[i];
      }
    }

    /** Unmaps chunk `i`. */
    method UnmapOne(address: int, ghost dMem: int, sizes: seq<nat>, i: nat, n: nat, ghost before: DriverState,
                    ghost hs: seq<Handle>, ghost start: DriverState, ghost unmaps: seq<int>) returns (status: int)
      requires i < n <= |sizes| && n <= |hs| && |unmaps| == i && driver.Valid() && AllPositive(sizes)
      requires address == dMem + Offset(sizes, i)
      requires Separate(before, dMem, sizes, n) && Attempted(driver.State(), start, dMem, sizes, unmaps)
      requires start.maps == before.maps + Mapped(dMem, sizes, hs, 0, n)
      requires driver.CleanupWorks() ==> Unmapping(driver.State(), start, before, dMem, sizes, hs, i, n)
      modifies driver
      ensures driver.Valid() && driver.calls == old(driver.calls) + 1
      ensures status == driver.unmapFault(old(driver.calls))
      ensures Attempted(driver.State(), start, dMem, sizes, unmaps + [status])
      ensures driver.CleanupWorks() ==>
                status == 0 && Unmapping(driver.State(), start, before, dMem, sizes, hs, i + 1, n)
    {
      ghost var s := driver.State();
      StillThere(start.maps, before, dMem, sizes, hs, unmaps, i, n);
      status := driver.MemUnmap(address, sizes[i]);
      UnmapStep(s, driver.State(), start, before, dMem, sizes, hs, i, n);
      AttemptStep(s, driver.State(), start, dMem, sizes, unmaps, status);
    }

    /** Unmap the first `n` chunks, ignoring the statuses. */
    method UnmapChunks(dMem: int, sizes: seq<nat>, n: nat, ghost before: DriverState, ghost hs: seq<Handle>)
      requires n <= |sizes| && n <= |hs| && driver.Valid() && AllPositive(sizes)
      requires Separate(before, dMem, sizes, n)
      requires Unmapping(driver.State(), driver.State(), before, dMem, sizes, hs, 0, n)
      modifies driver
      ensures driver.Valid() && driver.live == old(driver.live)
      ensures driver.CleanupWorks() ==> Unmapping(driver.State(), old(driver.State()), before, dMem, sizes, hs, n, n)
    {
      var unmappedSize: nat := 0;
      ghost var start, unmaps := driver.State(), [];
      for j := 0 to n
        invariant driver.Valid() && unmappedSize == Offset(sizes, j)
        invariant |unmaps| == j && Attempted(driver.State(), start, dMem, sizes, unmaps)
        invariant driver.CleanupWorks() ==> Unmapping(driver.State(), start, before, dMem, sizes, hs, j, n)
      {
        var status := UnmapOne(dMem + unmappedSize, dMem, sizes, j, n, before, hs, start, unmaps);
        unmaps := unmaps + [status];
        unmappedSize := unmappedSize + sizes[j];
      }
    }

    /** `create_and_map`. Without an error everything is created and mapped, the chunks contiguous from
        `dMem` on, and the range has read and write access. Starting without an error code, a failure to
        create or map leaves nothing behind as long as the clean-up calls work; a failure to set the
        access flags leaves everything behind. In a reserved range the calls fail only by their faults,
        and the first fault is the error code. */
    method CreateAndMap(size: nat, dMem: int, handles: array<Handle>, sizes: seq<nat>) returns (ghost stage: Stage)
      requires handles.Length >= |sizes| && driver.Valid() && AllPositive(sizes)
      modifies this, driver, handles
      ensures driver.Valid()
      ensures stage == Nowhere <==> errorCode == 0
      ensures old(errorCode) == 0 && (stage == Nowhere || stage == Access) ==>
                Holds(driver.State().(access := old(driver.access)), old(driver.State()), dMem, sizes, handles[..],
                      |sizes|, |sizes|)
      ensures stage == Nowhere ==> driver.access == old(driver.access) + Span(dMem, size)
      ensures stage == Access && old(errorCode) == 0 ==> driver.access == old(driver.access)
      ensures old(errorCode) == 0 && (stage == Creating || stage == Mapping_) && driver.CleanupWorks() ==>
                driver.State() == old(driver.State())
      ensures old(errorCode) != 0 && |sizes| > 0 ==>
                && stage == Creating && driver.maps == old(driver.maps)
                && (driver.createFault(old(driver.calls)) == 0 <==> driver.live != old(driver.live))
      ensures old(errorCode) == 0 && size == Sum(sizes) && Reserved(old(driver.State()), dMem, size) ==>
                var n, calls := |sizes|, old(driver.calls);
                var create, mapping, access := FirstFault(driver.createFault, calls, n),
                                               FirstFault(driver.mapFault, calls + n, n),
                                               driver.accessFault(calls + 2 * n);
                && errorCode == (if create != 0 then create else if mapping != 0 then mapping else access)
                && stage == (if create != 0 then Creating else if mapping != 0 then Mapping_
                             else if access != 0 then Access else Nowhere)
    {
      ghost var before, calls := driver.State(), driver.calls;
      TotalIsSum(sizes);
      CreateAll(handles, sizes);
      if errorCode != 0 && |sizes| > 0 {
        stage := Creating;
        return;
      }
      if errorCode == 0 {
        assert Mapped(0, sizes, handles[..], 0, 0) == Mapped(dMem, sizes, handles[..], 0, 0);
        MapAll(dMem, handles, sizes, before);
      }
      if errorCode != 0 && |sizes| > 0 {
        stage := Mapping_;
        return;
      }
      if errorCode == 0 {
        AllBacked(driver.State(), before, dMem, sizes, handles[..]);
      }
      var status := driver.MemSetAccess(dMem, size);
      CudaCheck(status);
      stage := if errorCode == 0 then Nowhere else Access;
    }

    /** `unmap_and_release`: every chunk is unmapped and every handle released, whatever the other
        calls return, and the first error is the one reported. Where the calls work, this undoes
        `create_and_map` exactly, whatever access has been given within the range. */
    method UnmapAndRelease(dMem: int, handles: array<Handle>, sizes: seq<nat>, ghost before: DriverState)
      returns (ghost unmaps: seq<int>, ghost releases: seq<int>)
      requires handles.Length >= |sizes| && driver.Valid() && AllPositive(sizes)
      requires Holds(driver.State().(access := before.access), before, dMem, sizes, handles[..], |sizes|, |sizes|)
      requires before.access <= driver.access <= before.access + Span(dMem, Sum(sizes))
      modifies this, driver
      ensures driver.Valid() && |unmaps| == |releases| == |sizes|
      ensures Attempted(driver.State().(live := old(driver.live)), old(driver.State()), dMem, sizes, unmaps)
      ensures driver.live == old(driver.live) - Released(handles[..], releases, |sizes|)
      ensures AreFaults(unmaps, driver.unmapFault, old(driver.calls))
      ensures AreFaults(releases, driver.releaseFault, old(driver.calls) + |sizes|)
      ensures var unmapping, releasing := FirstFault(driver.unmapFault, old(driver.calls), |sizes|),
                                          FirstFault(driver.releaseFault, old(driver.calls) + |sizes|, |sizes|);
              errorCode == if unmapping != 0 then unmapping else if releasing != 0 then releasing else old(errorCode)
      ensures driver.CleanupWorks() ==> driver.State() == before && errorCode == old(errorCode)
    {
      TotalIsSum(sizes);
      var firstError;
      firstError, unmaps := UnmapEach(dMem, sizes, handles[..], before);
      firstError, releases := ReleaseEach(handles, |sizes|, before.live, firstError);
      if firstError != 0 {
        CudaCheck(firstError);
      }
    }

    /** The first loop of `unmap_and_release`. */
    method UnmapEach(dMem: int, sizes: seq<nat>, ghost hs: seq<Handle>, ghost before: DriverState)
      returns (firstError: int, ghost unmaps: seq<int>)
      requires |hs| >= |sizes| && driver.Valid() && AllPositive(sizes)
      requires Separate(before, dMem, sizes, |sizes|)
      requires Unmapping(driver.State(), driver.State(), before, dMem, sizes, hs, 0, |sizes|)
      modifies driver
      ensures driver.Valid() && |unmaps| == |sizes|
      ensures Attempted(driver.State(), old(driver.State()), dMem, sizes, unmaps)
      ensures driver.calls == old(driver.calls) + |sizes| && AreFaults(unmaps, driver.unmapFault, old(driver.calls))
      ensures firstError == FirstFault(driver.unmapFault, old(driver.calls), |sizes|)
      ensures driver.CleanupWorks() ==>
                firstError == 0
                && Unmapping(driver.State(), old(driver.State()), before, dMem, sizes, hs, |sizes|, |sizes|)
    {
      var n, allocatedSize: nat := |sizes|, 0;
      ghost var start, calls := driver.State(), driver.calls;
      firstError, unmaps := 0, [];
      for i := 0 to n
        invariant driver.Valid() && allocatedSize == Offset(sizes, i) && |unmaps| == i
        invariant Attempted(driver.State(), start, dMem, sizes, unmaps)
        invariant driver.CleanupWorks() ==> Unmapping(driver.State(), start, before, dMem, sizes, hs, i, n)
        invariant driver.calls == calls + i && AreFaults(unmaps, driver.unmapFault, calls)
        invariant firstError == FirstFault(driver.unmapFault, calls, i)
        invariant driver.CleanupWorks() ==> firstError == 0
      {
        var status := UnmapOne(dMem + allocatedSize, dMem, sizes, i, n, before, hs, start, unmaps);
        OneMoreFault(unmaps, driver.unmapFault, calls, status);
        if status != 0 && firstError == 0 {
          firstError := status;
        }
        unmaps := unmaps + [status];
        allocatedSize := allocatedSize + sizes[i];
      }
    }

    /** Releases handle `i`. */
    method ReleaseOne(handle: Handle, ghost before: set<Handle>, ghost hs: seq<Handle>, i: nat, n: nat,
                      ghost live: set<Handle>, ghost releases: seq<int>) returns (status: int)
      requires i < n <= |hs| && handle == hs[i] && i == |releases| && driver.Valid()
      requires live == before + Created(hs, n) && AllNew(hs, n, before)
      requires driver.live == live - Released(hs, releases, i)
      requires driver.CleanupWorks() ==> driver.live == before + (Created(hs, n) - Created(hs, i))
      modifies driver
      ensures driver.Valid() && driver.calls == old(driver.calls) + 1
      ensures driver.maps == old(driver.maps) && driver.access == old(driver.access)
      ensures status == driver.releaseFault(old(driver.calls))
      ensures driver.live == live - Released(hs, releases + [status], i + 1)
      ensures driver.CleanupWorks() ==>
                status == 0 && driver.live == before + (Created(hs, n) - Created(hs, i + 1))
    {
      DropCreated(before, hs, i, n);
      StillLive(before, hs, releases, i, n);
      ghost var l := driver.live;
      status := driver.MemRelease(handle);
      ReleasedGrows(live, l, hs, releases, status);
    }

    /** The second loop of `unmap_and_release`. */
    method ReleaseEach(handles: array<Handle>, n: nat, ghost before: set<Handle>, firstSoFar: int)
      returns (firstError: int, ghost releases: seq<int>)
      requires n <= handles.Length && driver.Valid()
      requires driver.live == before + Created(handles[..], n) && AllNew(handles[..], n, before)
      modifies driver
      ensures driver.Valid() && |releases| == n
      ensures driver.maps == old(driver.maps) && driver.access == old(driver.access)
      ensures driver.live == old(driver.live) - Released(handles[..], releases, n)
      ensures driver.calls == old(driver.calls) + n && AreFaults(releases, driver.releaseFault, old(driver.calls))
      ensures firstError == if firstSoFar != 0 then firstSoFar
                            else FirstFault(driver.releaseFault, old(driver.calls), n)
      ensures driver.CleanupWorks() ==> driver.live == before && firstError == firstSoFar
    {
      ghost var hs, calls := handles[..], driver.calls;
      firstError, releases := firstSoFar, [];
      for i := 0 to n
        invariant driver.Valid() && |releases| == i
        invariant driver.maps == old(driver.maps) && driver.access == old(driver.access)
        invariant driver.live == old(driver.live) - Released(hs, releases, i)
        invariant driver.CleanupWorks() ==> driver.live == before + (Created(hs, n) - Created(hs, i))
        invariant driver.calls == calls + i && AreFaults(releases, driver.releaseFault, calls)
        invariant firstError == if firstSoFar != 0 then firstSoFar else FirstFault(driver.releaseFault, calls, i)
        invariant driver.CleanupWorks() ==> firstError == firstSoFar
      {
        var status := ReleaseOne(handles[i], before, hs, i, n, old(driver.live), releases);
        OneMoreFault(releases, driver.releaseFault, calls, status);
        if status != 0 && firstError == 0 {
          firstError := status;
        }
        releases := releases + [status];
      }
    }

    /** Round trip: creating and mapping, and then unmapping and releasing, leaves the driver as it was.
        In between, if no call has a fault, the range has access. */
    method MapAndUndo(dMem: int, handles: array<Handle>, sizes: seq<nat>)
      requires handles.Length >= |sizes| && driver.Valid() && AllPositive(sizes)
      requires errorCode == 0 && driver.CleanupWorks()
      modifies this, driver, handles
      ensures driver.Valid() && (errorCode == 0 ==> driver.State() == old(driver.State()))
    {
      ghost var before := driver.State();
      ghost var stage := CreateAndMap(Sum(sizes), dMem, handles, sizes);
      if errorCode == 0 {
        ghost var unmaps, releases := UnmapAndRelease(dMem, handles, sizes, before);
      }
    }
  }

  /** No chunk whose unmapping succeeded has access. */
  ghost predicate Gone(access: set<int>, base: int, sizes: seq<nat>, statuses: seq<int>) {
    && |statuses| <= |sizes|
    && forall i {:trigger statuses[i]} :: 0 <= i < |statuses| && statuses[i] == 0 ==>
         access !! Span(base + Offset(sizes, i), sizes[i])
  }

  lemma GoneGrows(access: set<int>, access': set<int>, base: int, sizes: seq<nat>, statuses: seq<int>, status: int)
    requires |statuses| < |sizes| && Gone(access, base, sizes, statuses)
    requires access' == if status == 0 then access - Span(base + Offset(sizes, |statuses|), sizes[|statuses|])
                        else access
    ensures Gone(access', base, sizes, statuses + [status])
  {
  }

  /** Of the chunks lo to hi on top of `before` those before `i` have been unmapped, starting from `start`. */
  ghost predicate Unmapping(s: DriverState, start: DriverState, before: DriverState, base: int, sizes: seq<nat>,
                            hs: seq<Handle>, i: nat, n: nat)
    requires i <= n <= |sizes| && n <= |hs|
  {
    && s.live == start.live && s.maps == before.maps + Mapped(base, sizes, hs, i, n)
    && before.access <= start.access <= before.access + Span(base, Offset(sizes, n))
    && s.access == start.access - Span(base, Offset(sizes, i))
  }

  lemma UnmapStep(s: DriverState, s': DriverState, start: DriverState, before: DriverState, base: int, sizes: seq<nat>,
                  hs: seq<Handle>, i: nat, n: nat)
    requires i < n <= |sizes| && n <= |hs| && AllPositive(sizes) && Separate(before, base, sizes, n)
    ensures Unmapping(s, start, before, base, sizes, hs, i, n) ==>
              base + Offset(sizes, i) in s.maps && s.maps[base + Offset(sizes, i)].size == sizes[i]
    ensures Unmapping(s, start, before, base, sizes, hs, i, n)
            && s' == s.(maps := s.maps - {base + Offset(sizes, i)},
                        access := s.access - Span(base + Offset(sizes, i), sizes[i]))
            ==> Unmapping(s', start, before, base, sizes, hs, i + 1, n)
  {
    DropMapped(before, base, sizes, hs, i, n);
    SpanGrows(start.access, base, Offset(sizes, i), sizes[i]);
  }

  /** The chunks have been unmapped one by one as far as the driver did so. */
  ghost predicate Attempted(s: DriverState, start: DriverState, base: int, sizes: seq<nat>, statuses: seq<int>) {
    && |statuses| <= |sizes| && s.live == start.live
    && s.maps == start.maps - Unmapped(base, sizes, statuses, |statuses|)
    && s.access <= start.access && Gone(s.access, base, sizes, statuses)
  }

  lemma AttemptStep(s: DriverState, s': DriverState, start: DriverState, base: int, sizes: seq<nat>,
                    statuses: seq<int>, status: int)
    requires |statuses| < |sizes| && Attempted(s, start, base, sizes, statuses)
    requires var a, size := base + Offset(sizes, |statuses|), sizes[|statuses|];
             s' == if status == 0 then s.(maps := s.maps - {a}, access := s.access - Span(a, size)) else s
    ensures Attempted(s', start, base, sizes, statuses + [status])
  {
    UnmappedGrows(start.maps, s.maps, base, sizes, statuses, status);
    GoneGrows(s.access, s'.access, base, sizes, statuses, status);
  }

  lemma SpanGrows(access: set<int>, base: int, o: nat, size: nat)
    ensures access - Span(base, o) - Span(base + o, size) == access - Span(base, o + size)
  {
  }

  /** In a reserved range the next chunk can be mapped. */
  lemma Mappable(s: DriverState, before: DriverState, base: int, sizes: seq<nat>, handles: seq<Handle>, i: nat)
    requires i < |sizes| <= |handles| && AllPositive(sizes)
    requires HoldsMappings(s, before, base, sizes, handles, i)
    ensures Reserved(before, base, Total(sizes)) ==> !Overlaps(s.maps, base + Offset(sizes, i), sizes[i])
  {
    OffsetsGrow(sizes, i, |sizes|);
    var m := Mapped(base, sizes, handles, 0, i);
    forall a | a in m
      ensures a + m[a].size <= base + Offset(sizes, i)
    {
      ChunkEndsBefore(base, sizes, handles, i, a);
    }
    if Reserved(before, base, Total(sizes)) {
      FreeBehind(before.maps, m, base, Total(sizes), base + Offset(sizes, i), sizes[i]);
    }
  }

  lemma FreeBehind(maps: map<int, Mapping>, m: map<int, Mapping>, base: int, total: nat, address: int, size: nat)
    requires base <= address && address + size <= base + total && !Overlaps(maps, base, total)
    requires forall a :: a in m ==> a + m[a].size <= address
    ensures !Overlaps(maps + m, address, size)
  {
    forall a | a in maps + m
      ensures !(a < address + size && address < a + (maps + m)[a].size)
    {
      if a !in m {
        assert !(a < base + total && base < a + maps[a].size);
      }
    }
  }

  lemma ChunkEndsBefore(base: int, sizes: seq<nat>, handles: seq<Handle>, i: nat, a: int)
    requires i < |sizes| <= |handles| && AllPositive(sizes)
    requires a in Mapped(base, sizes, handles, 0, i)
    ensures a + Mapped(base, sizes, handles, 0, i)[a].size <= base + Offset(sizes, i)
  {
    MappedAt(base, sizes, handles, 0, i, a);
    var j :| 0 <= j < i && StartsAt(base, sizes, j, a);
    OffsetsGrow(sizes, j, i);
  }

  /** All chunks together back the range. */
  lemma AllBacked(s: DriverState, before: DriverState, base: int, sizes: seq<nat>, handles: seq<Handle>)
    requires |sizes| <= |handles| && AllPositive(sizes)
    requires HoldsMappings(s, before, base, sizes, handles, |sizes|)
    ensures Backed(s.maps, base, Total(sizes))
  {
    forall x | base <= x < base + Total(sizes)
      ensures IsMapped(s.maps, x)
    {
      CoveredOnce(sizes, |sizes|, x - base);
      var i :| 0 <= i < |sizes| && InChunk(sizes, i, x - base);
      var a := base + Offset(sizes, i);
      MappedAt(base, sizes, handles, 0, |sizes|, a);
      assert StartsAt(base, sizes, i, a);
      assert a in s.maps && s.maps[a] == Mapping(sizes[i], handles[i]);
    }
  }

  /** The addresses whose unmapping succeeded. */
  function Unmapped(base: int, sizes: seq<nat>, statuses: seq<int>, n: nat): (r: set<int>)
    requires n <= |sizes| && n <= |statuses|
  {
    if n == 0 then {}
    else Unmapped(base, sizes, statuses, n - 1) + (if statuses[n - 1] == 0 then {base + Offset(sizes, n - 1)} else {})
  }

  /** The handles whose release succeeded. */
  function Released(handles: seq<Handle>, statuses: seq<int>, n: nat): (r: set<Handle>)
    requires n <= |handles| && n <= |statuses|
  {
    if n == 0 then {} else Released(handles, statuses, n - 1) + (if statuses[n - 1] == 0 then {handles[n - 1]} else {})
  }

  /** The statuses are the faults of the calls from call `from` on, so every call was with valid arguments. */
  ghost predicate AreFaults(statuses: seq<int>, fault: nat -> int, from: nat) {
    forall i {:trigger IsFault(statuses, fault, from, i)} :: 0 <= i < |statuses| ==> IsFault(statuses, fault, from, i)
  }

  ghost predicate IsFault(statuses: seq<int>, fault: nat -> int, from: nat, i: nat)
    requires i < |statuses|
  {
    statuses[i] == fault(from + i)
  }

  lemma OneMoreFault(statuses: seq<int>, fault: nat -> int, from: nat, status: int)
    requires AreFaults(statuses, fault, from) && status == fault(from + |statuses|)
    ensures AreFaults(statuses + [status], fault, from)
  {
    forall i | 0 <= i < |statuses| + 1
      ensures IsFault(statuses + [status], fault, from, i)
    {
      assert i < |statuses| ==> IsFault(statuses, fault, from, i);
    }
  }

  lemma {:induction false} UnmappedBelow(base: int, sizes: seq<nat>, statuses: seq<int>, n: nat, i: nat)
    requires n <= i < |sizes| && n <= |statuses| && AllPositive(sizes)
    ensures base + Offset(sizes, i) !in Unmapped(base, sizes, statuses, n)
  {
    if n > 0 {
      UnmappedBelow(base, sizes, statuses, n - 1, i);
      OffsetsGrow(sizes, n - 1, i);
    }
  }

  /** The next chunk is still mapped, whatever has become of those before it. */
  lemma StillThere(maps: map<int, Mapping>, before: DriverState, base: int, sizes: seq<nat>, hs: seq<Handle>,
                   statuses: seq<int>, i: nat, n: nat)
    requires i < n <= |sizes| && n <= |hs| && i == |statuses| && AllPositive(sizes)
    requires maps == before.maps + Mapped(base, sizes, hs, 0, n)
    ensures var a, m := base + Offset(sizes, i), maps - Unmapped(base, sizes, statuses, i);
            a in m && m[a].size == sizes[i]
  {
    ChunkIsMapped(base, sizes, hs, 0, n, i);
    UnmappedBelow(base, sizes, statuses, i, i);
  }

  lemma {:induction false} ReleasedBelow(handles: seq<Handle>, statuses: seq<int>, n: nat)
    requires n <= |handles| && n <= |statuses|
    ensures Released(handles, statuses, n) <= Created(handles, n)
  {
    if n > 0 {
      ReleasedBelow(handles, statuses, n - 1);
    }
  }

  lemma StillLive(before: set<Handle>, handles: seq<Handle>, statuses: seq<int>, i: nat, n: nat)
    requires i < n <= |handles| && i == |statuses| && AllNew(handles, n, before)
    ensures handles[i] in before + Created(handles, n) - Released(handles, statuses, i)
  {
    CreatedHas(handles, i, n);
    ReleasedBelow(handles, statuses, i);
    assert New(handles, i, before);
  }

  lemma {:induction false} UnmappedPrefix(base: int, sizes: seq<nat>, statuses: seq<int>, status: int, n: nat)
    requires n <= |statuses| && n <= |sizes|
    ensures Unmapped(base, sizes, statuses + [status], n) == Unmapped(base, sizes, statuses, n)
  {
    if n > 0 {
      UnmappedPrefix(base, sizes, statuses, status, n - 1);
    }
  }

  lemma UnmappedGrows(maps: map<int, Mapping>, m: map<int, Mapping>, base: int, sizes: seq<nat>,
                      statuses: seq<int>, status: int)
    requires |statuses| < |sizes| && m == maps - Unmapped(base, sizes, statuses, |statuses|)
    ensures maps - Unmapped(base, sizes, statuses + [status], |statuses| + 1)
         == if status == 0 then m - {base + Offset(sizes, |statuses|)} else m
  {
    UnmappedPrefix(base, sizes, statuses, status, |statuses|);
  }

  lemma {:induction false} ReleasedPrefix(handles: seq<Handle>, statuses: seq<int>, status: int, n: nat)
    requires n <= |statuses| && n <= |handles|
    ensures Released(handles, statuses + [status], n) == Released(handles, statuses, n)
  {
    if n > 0 {
      ReleasedPrefix(handles, statuses, status, n - 1);
    }
  }

  lemma ReleasedGrows(live: set<Handle>, l: set<Handle>, handles: seq<Handle>, statuses: seq<int>, status: int)
    requires |statuses| < |handles| && l == live - Released(handles, statuses, |statuses|)
    ensures live - Released(handles, statuses + [status], |statuses| + 1)
         == if status == 0 then l - {handles[|statuses|]} else l
  {
    ReleasedPrefix(handles, statuses, status, |statuses|);
  }

  /** Addresses that the driver accepts for a new mapping have none yet, and so no access either. */
  lemma NotMappedBefore(s: DriverState, before: DriverState, dMem: int, sizes: seq<nat>, i: nat)
    requires i < |sizes| && AllPositive(sizes) && Separate(before, dMem, sizes, i)
    requires s.access == before.access && (forall a :: a in before.maps ==> a in s.maps)
    requires (forall a :: a in s.maps ==> s.maps[a].size > 0) && AccessBacked(s.maps, s.access)
    requires !Overlaps(s.maps, dMem + Offset(sizes, i), sizes[i])
    ensures Separate(before, dMem, sizes, i + 1)
  {
    var a := dMem + Offset(sizes, i);
    OccupiedOverlaps(s.maps, a, sizes[i]);
    assert Free(before, dMem, sizes, i);
    forall x | x in before.access
      ensures x !in Span(dMem, Offset(sizes, i + 1))
    {
      assert IsMapped(s.maps, x);
    }
  }

  lemma HoldsOneMore(s: DriverState, s': DriverState, before: DriverState, dMem: int, sizes: seq<nat>,
                     hs: seq<Handle>, i: nat)
    requires i < |sizes| && i < |hs| && AllPositive(sizes)
    requires HoldsMappings(s, before, dMem, sizes, hs, i)
    requires (forall a :: a in s.maps ==> s.maps[a].size > 0) && AccessBacked(s.maps, s.access)
    requires !Overlaps(s.maps, dMem + Offset(sizes, i), sizes[i])
    requires s' == s.(maps := s.maps[dMem + Offset(sizes, i) := Mapping(sizes[i], hs[i])])
    ensures HoldsMappings(s', before, dMem, sizes, hs, i + 1)
  {
    NotMappedBefore(s, before, dMem, sizes, i);
    MappedLast(before.maps, dMem, sizes, hs, i);
  }

  lemma MappedLast(maps: map<int, Mapping>, dMem: int, sizes: seq<nat>, hs: seq<Handle>, i: nat)
    requires i < |sizes| && i < |hs|
    ensures (maps + Mapped(dMem, sizes, hs, 0, i))[dMem + Offset(sizes, i) := Mapping(sizes[i], hs[i])]
         == maps + Mapped(dMem, sizes, hs, 0, i + 1)
  {
  }

  lemma OccupiedOverlaps(m: map<int, Mapping>, a: int, size: nat)
    ensures a in m && m[a].size > 0 && size > 0 ==> Overlaps(m, a, size)
  {
    if a in m && m[a].size > 0 && size > 0 {
      assert a < a + size && a < a + m[a].size;
    }
  }

  /** Writing handle `i` leaves the first `i` as they were. */
  lemma NewHandle(hs: seq<Handle>, hs': seq<Handle>, i: nat, before: set<Handle>)
    requires i < |hs| == |hs'| && hs[..i] == hs'[..i] && AllNew(hs, i, before)
    ensures Created(hs', i) == Created(hs, i) && AllNew(hs', i, before)
  {
    CreatedPrefix(hs, hs', i);
    forall j | 0 <= j < i
      ensures New(hs', j, before)
    {
      assert New(hs, j, before);
      assert hs[..j] == hs[..i][..j] == hs'[..j];
      assert hs[j] == hs[..i][j] == hs'[j];
      CreatedPrefix(hs, hs', j);
    }
  }
}
