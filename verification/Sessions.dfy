/** Whole runs of a client: any sequence of calls on a heap, against the
    simple specification of a heap as a map of independent arrays. */
module Sessions {
  import opened Words
  import opened Rings
  import opened Tags
  import opened HeapState
  import opened Steps
  import opened Growth
  import opened Freeing
  import opened Resizing
  import opened Bytes
  import opened Moving
  import opened Aligning
  import opened Arrays
  import opened Allocator

  /** Alignments for which memalign ends. */
  type Alignment = x: int | 0 <= x <= 0x8000_0000_0000_0000

  /** Pointer arguments are named by the slot an earlier call filled. */
  datatype Request =
    | Allocate(bytes: uint64)
    | AllocateZeroed(count: uint64, elem: uint64)
    | AllocateAligned(alignment: Alignment, bytes: uint64)
    | Release(slot: nat)
    | Resize(slot: nat, bytes: uint64)
    | Write(slot: nat, index: nat, value: int)

  /** The arrays by chunk address, and the pointers the client holds. */
  datatype Spec = Spec(arrays: Store, table: seq<int>)

  /** A new array for pointer r, with room for the bytes. */
  ghost predicate Added(a: Store, a': Store, r: int, bytes: nat) {
    && r - 16 !in a && r - 16 in a' && a' == a[r - 16 := a'[r - 16]] && 8 * |a'[r - 16]| >= bytes
  }

  /** The array of pointer r replaced by one for pointer q that starts with
      the same bytes. */
  ghost predicate Replaced(a: Store, a': Store, r: int, q: int, bytes: nat) {
    && r - 16 in a && q - 16 in a' && (q == r || q - 16 !in a)
    && a' == (a - {r - 16})[q - 16 := a'[q - 16]] && 8 * |a'[q - 16]| >= bytes
    && forall j: nat :: j < bytes && j < 8 * |a[r - 16]| ==>
         && j / 8 < |a[r - 16]| && j / 8 < |a'[q - 16]|
         && ByteAt(a'[q - 16], j) == ByteAt(a[r - 16], j)
  }

  /** A new pointer r at the end of the table, 0 exactly if the request is
      denied. */
  ghost predicate Handed(s: Spec, s': Spec, denied: bool, bytes: nat) {
    && |s'.table| == |s.table| + 1 && s'.table[..|s.table|] == s.table
    && var r := s'.table[|s.table|];
       if denied then r == 0 && s'.arrays == s.arrays else r != 0 && Added(s.arrays, s'.arrays, r, bytes)
  }

  /** One request, which may be denied for lack of memory. */
  ghost predicate Step(s: Spec, req: Request, s': Spec, denied: bool) {
    match req
    case Allocate(bytes) =>
      Handed(s, s', denied, bytes) && s'.table[|s.table|] % 16 == 0
    case AllocateZeroed(count, elem) =>
      Handed(s, s', denied, Product(count, elem)) &&
      var r := s'.table[|s.table|];
      r % 16 == 0 && (!denied ==> ZeroPrefix(s'.arrays[r - 16], Product(count, elem)))
    case AllocateAligned(alignment, bytes) =>
      Handed(s, s', denied, bytes) && (PowerOfTwo(alignment) && alignment > 0 ==> s'.table[|s.table|] % alignment == 0)
    case Release(slot) =>
      if slot < |s.table| then
        s'.table == s.table[slot := 0] &&
        s'.arrays == if s.table[slot] == 0 then s.arrays else s.arrays - {s.table[slot] - 16}
      else s' == s
    case Resize(slot, bytes) =>
      if denied || slot >= |s.table| then s' == s
      else
        && |s'.table| == |s.table| && s'.table == s.table[slot := s'.table[slot]] && s'.table[slot] != 0
        && if s.table[slot] == 0 then Added(s.arrays, s'.arrays, s'.table[slot], bytes)
           else Replaced(s.arrays, s'.arrays, s.table[slot], s'.table[slot], bytes)
    case Write(slot, index, value) =>
      s'.table == s.table &&
      if slot < |s.table| && s.table[slot] != 0 && s.table[slot] - 16 in s.arrays
        && index < |s.arrays[s.table[slot] - 16]| then
        var p := s.table[slot] - 16;
        s'.arrays == s.arrays[p := s.arrays[p][index := value]]
      else s'.arrays == s.arrays
  }

  /** Which requests are denied: those the heap refuses. For memalign the size
      asked of malloc depends on the least suitable power of two a. */
  ghost predicate Denies(heap: Heap, req: Request, table: seq<int>, denied: bool)
    reads heap
  {
    match req
    case Allocate(bytes) => denied == heap.Refused(bytes)
    case AllocateZeroed(count, elem) => denied == heap.Refused(Product(count, elem))
    case AllocateAligned(alignment, bytes) =>
      exists a: nat ::
        PowerOfTwo(a) && alignment <= a && (if alignment <= 16 then a == 16 else a == 32 || a < 2 * alignment)
        && denied == if alignment <= 16 then heap.Refused(bytes)
                     else bytes + a >= MAX_REQUEST || heap.Refused(Request2Size(bytes) + a + 24)
    case Resize(slot, bytes) =>
      slot < |table| ==>
        denied == (heap.Refused(bytes)
                   && (table[slot] != 0 && bytes < MAX_REQUEST ==>
                         !Extensible(heap.St(), table[slot] - 16, Request2Size(bytes))))
    case _ => true
  }

  /** The client's pointers are live and different from each other. */
  ghost predicate Tied(a: Store, table: seq<int>) {
    && (forall i :: 0 <= i < |table| && table[i] != 0 ==> table[i] - 16 in a)
    && (forall i, j :: 0 <= i < j < |table| && table[i] != 0 ==> table[i] != table[j])
  }

  /** A new block is a new array with room for the bytes. */
  lemma AddedBlock(s: State, s': State, r: int, n: nat, bytes: nat)
    requires NewBlock(s, s', r - 16, n) && bytes + 8 <= n
    ensures Added(ArraysOf(s), ArraysOf(s'), r, bytes)
  {
    hide Coalesced, Payloads, Contents, Books;
    MallocArrays(s, s', r - 16, n);
    NewAt(s, s', r - 16, n);
    ContentsLength(s'.mem, r - 16, n);
    FreshBooks(s, s', r - 16, n);
    BlockFacts(s', r - 16);
    LengthBytes(n);
  }

  lemma LengthBytes(n: nat)
    requires n % 16 == 0 && n >= 8
    ensures 8 * Length(n) == n - 8
  {
  }

  /** The table with a new pointer, or 0, at its end. */
  lemma TiedAdded(a: Store, a': Store, table: seq<int>, r: int, bytes: nat)
    requires Tied(a, table) && (if r == 0 then a' == a else Added(a, a', r, bytes))
    ensures Tied(a', table + [r])
  {
    var t := table + [r];
    forall i | 0 <= i < |table| ensures t[i] == table[i] && (t[i] != 0 ==> t[i] != r) {
    }
  }

  method ServeAllocate(heap: Heap, bytes: uint64, table: seq<int>)
    returns (table': seq<int>, ghost denied: bool)
    requires heap.Valid() && Tied(heap.Arrays(), table)
    modifies heap
    ensures heap.Valid() && Tied(heap.Arrays(), table')
    ensures Step(Spec(old(heap.Arrays()), table), Allocate(bytes), Spec(heap.Arrays(), table'), denied)
    ensures old(Denies(heap, Allocate(bytes), table, denied))
  {
    hide Books, Coalesced, NewBlock, Tied, Added, ArraysOf, Request2Size, NoFit, Up64, Blocks, heap.Valid;
    ghost var s0 := heap.St();
    denied := heap.Refused(bytes);
    var r := heap.Malloc(bytes);
    if r != 0 {
      AddedBlock(s0, heap.St(), r, Blocks(heap.h)[r - 16], bytes);
    }
    TiedAdded(ArraysOf(s0), heap.Arrays(), table, r, bytes);
    table' := table + [r];
  }

  method ServeZeroed(heap: Heap, count: uint64, elem: uint64, table: seq<int>)
    returns (table': seq<int>, ghost denied: bool)
    requires heap.Valid() && Tied(heap.Arrays(), table)
    modifies heap
    ensures heap.Valid() && Tied(heap.Arrays(), table')
    ensures Step(Spec(old(heap.Arrays()), table), AllocateZeroed(count, elem), Spec(heap.Arrays(), table'), denied)
    ensures old(Denies(heap, AllocateZeroed(count, elem), table, denied))
  {
    hide Books, Coalesced, NewBlock, Tied, Added, ArraysOf, Product, NoFit, Blocks, Filled, ZeroPrefix;
    ghost var s0 := heap.St();
    denied := heap.Refused(Product(count, elem));
    var r := heap.Calloc(count, elem);
    if r != 0 {
      AddedBlock(s0, heap.St(), r, Blocks(heap.h)[r - 16], Product(count, elem));
      ZeroBlock(heap.St(), r, Product(count, elem));
    }
    TiedAdded(ArraysOf(s0), heap.Arrays(), table, r, Product(count, elem));
    table' := table + [r];
  }

  /** A block of zeroed bytes is an array that starts with as many. */
  lemma ZeroBlock(s: State, r: int, bytes: nat)
    requires Books(s) && r - 16 in Blocks(s.h) && bytes + 8 <= Blocks(s.h)[r - 16] && Filled(s.mem, r, bytes, 0)
    ensures r - 16 in ArraysOf(s) && ZeroPrefix(ArraysOf(s)[r - 16], bytes)
  {
    hide Books, Contents, Filled, ZeroPrefix;
    InBlocks(s, r - 16);
    BlockFacts(s, r - 16);
    Aligned8(r - 16);
    ZeroContents(s.mem, r - 16, s.h[r - 16].size, bytes);
  }

  method ServeAligned(heap: Heap, alignment: Alignment, bytes: uint64, table: seq<int>)
    returns (table': seq<int>, ghost denied: bool)
    requires heap.Valid() && Tied(heap.Arrays(), table)
    modifies heap
    ensures heap.Valid() && Tied(heap.Arrays(), table')
    ensures var req := AllocateAligned(alignment, bytes);
            Step(Spec(old(heap.Arrays()), table), req, Spec(heap.Arrays(), table'), denied)
    ensures old(Denies(heap, AllocateAligned(alignment, bytes), table, denied))
  {
    hide Books, Coalesced, NewBlock, Tied, Added, ArraysOf, PowerOfTwo;
    ghost var s0 := heap.St();
    var r, a, n := heap.Memalign(alignment, bytes);
    denied := r == 0;
    if r != 0 {
      AddedBlock(s0, heap.St(), r, n, bytes);
    }
    TiedAdded(ArraysOf(s0), heap.Arrays(), table, r, bytes);
    table' := table + [r];
  }

  lemma TiedReleased(a: Store, table: seq<int>, slot: nat)
    requires Tied(a, table) && slot < |table|
    ensures Tied(if table[slot] == 0 then a else a - {table[slot] - 16}, table[slot := 0])
  {
  }

  method ServeRelease(heap: Heap, slot: nat, table: seq<int>) returns (table': seq<int>)
    requires heap.Valid() && Tied(heap.Arrays(), table)
    modifies heap
    ensures heap.Valid() && Tied(heap.Arrays(), table')
    ensures Step(Spec(old(heap.Arrays()), table), Release(slot), Spec(heap.Arrays(), table'), false)
  {
    hide Books, Coalesced, Freed, ArraysOf;
    table' := table;
    if slot < |table| {
      ghost var s0 := heap.St();
      if table[slot] != 0 { InBlocks(s0, table[slot] - 16); }
      heap.Free(table[slot]);
      if table[slot] != 0 { FreeArrays(s0, heap.St(), table[slot] - 16); }
      TiedReleased(ArraysOf(s0), table, slot);
      table' := table[slot := 0];
    }
  }

  /** A moved block is a replaced array. */
  lemma ReplacedBlock(s: State, s': State, r: int, q: int, bytes: nat)
    requires r - 16 in Blocks(s.h) && q - 16 in Blocks(s'.h) && bytes + 8 <= Blocks(s'.h)[q - 16] && Books(s)
    requires Moved(s, s', r - 16, q - 16, Blocks(s'.h)[q - 16], Min(Blocks(s.h)[r - 16] - 8, bytes))
             && Blocks(s.h)[r - 16] >= 8
    ensures Replaced(ArraysOf(s), ArraysOf(s'), r, q, bytes)
  {
    hide Books, Coalesced, ArraysOf, PayloadsBut, Copied, SamePrefix, Blocks, Length;
    var p, p' := r - 16, q - 16;
    InBlocks(s, p);
    InBlocks(s', p');
    MovedBooks(s, s', p, p', Blocks(s'.h)[p'], Min(Blocks(s.h)[p] - 8, bytes));
    BlockFacts(s, p);
    BlockFacts(s', p');
    Aligned8(p);
    Aligned8(p');
    MoveArrays(s, s', p, p', Blocks(s'.h)[p'], Min(Blocks(s.h)[p] - 8, bytes));
    InBlocks(s, p');
    Lengths(s, p);
    LengthBytes(s.h[p].size);
    LengthBytes(s'.h[p'].size);
    BothBounds(ArraysOf(s)[p], ArraysOf(s')[p'], bytes);
  }

  lemma BothBounds(a: seq<int>, b: seq<int>, bytes: nat)
    requires SamePrefix(a, b, Min(8 * |a|, bytes))
    ensures forall j: nat :: j < bytes && j < 8 * |a| ==>
              j / 8 < |a| && j / 8 < |b| && ByteAt(b, j) == ByteAt(a, j)
  {
  }

  lemma MovedBooks(s: State, s': State, p: int, p': int, n: nat, k: nat)
    requires Moved(s, s', p, p', n, k)
    ensures Books(s') && Coalesced(s'.h)
  {
  }

  lemma TiedReplaced(a: Store, a': Store, table: seq<int>, slot: nat, q: int, bytes: nat)
    requires Tied(a, table) && slot < |table| && q != 0
    requires if table[slot] == 0 then Added(a, a', q, bytes) else Replaced(a, a', table[slot], q, bytes)
    ensures Tied(a', table[slot := q])
  {
    hide ByteAt;
  }

  method ServeResize(heap: Heap, slot: nat, bytes: uint64, table: seq<int>)
    returns (table': seq<int>, ghost denied: bool)
    requires heap.Valid() && Tied(heap.Arrays(), table)
    modifies heap
    ensures heap.Valid() && Tied(heap.Arrays(), table')
    ensures Step(Spec(old(heap.Arrays()), table), Resize(slot, bytes), Spec(heap.Arrays(), table'), denied)
    ensures old(Denies(heap, Resize(slot, bytes), table, denied))
  {
    hide Books, Coalesced, Moved, ArraysOf, Request2Size, Added, Replaced, Blocks, NewBlock;
    table', denied := table, false;
    if slot < |table| {
      ghost var s0 := heap.St();
      var r := table[slot];
      if r != 0 {
        InBlocks(s0, r - 16);
        BlockFacts(s0, r - 16);
      }
      var q := heap.Realloc(r, bytes);
      denied := q == 0;
      if q != 0 {
        if r == 0 {
          AddedBlock(s0, heap.St(), q, Blocks(heap.h)[q - 16], bytes);
        } else {
          ReplacedBlock(s0, heap.St(), r, q, bytes);
        }
        TiedReplaced(ArraysOf(s0), heap.Arrays(), table, slot, q, bytes);
        table' := table[slot := q];
      }
    }
  }

  lemma TiedWritten(a: Store, a': Store, table: seq<int>)
    requires Tied(a, table) && a'.Keys == a.Keys
    ensures Tied(a', table)
  {
  }

  method ServeWrite(heap: Heap, slot: nat, index: nat, value: int, table: seq<int>)
    requires heap.Valid() && Tied(heap.Arrays(), table)
    modifies heap
    ensures heap.Valid() && Tied(heap.Arrays(), table)
    ensures Step(Spec(old(heap.Arrays()), table), Write(slot, index, value), Spec(heap.Arrays(), table), false)
  {
    hide Books, Coalesced, ArraysOf, Length, PayloadsBut, ChunkSize;
    if slot < |table| && table[slot] != 0 {
      ghost var s0 := heap.St();
      var p := table[slot] - 16;
      InBlocks(s0, p);
      Lengths(s0, p);
      UsedHead(s0, p);
      if index < Length(ChunkSize(Word(heap.mem, p + 8))) {
        WordInside(p, s0.h[p].size, index);
        heap.ClientWrite(p + 16, p + 16 + 8 * index, value);
        WriteArrays(s0, heap.St(), p, index, value);
      }
      TiedWritten(ArraysOf(s0), heap.Arrays(), table);
    }
  }

  /** One request of a run. */
  method Serve(heap: Heap, req: Request, table: seq<int>)
    returns (table': seq<int>, ghost denied: bool)
    requires heap.Valid() && Tied(heap.Arrays(), table)
    modifies heap
    ensures heap.Valid() && Tied(heap.Arrays(), table')
    ensures Step(Spec(old(heap.Arrays()), table), req, Spec(heap.Arrays(), table'), denied)
    ensures old(Denies(heap, req, table, denied))
  {
    hide Denies, Step, heap.Valid;
    match req
    case Allocate(bytes) => table', denied := ServeAllocate(heap, bytes, table);
    case AllocateZeroed(count, elem) => table', denied := ServeZeroed(heap, count, elem, table);
    case AllocateAligned(alignment, bytes) => table', denied := ServeAligned(heap, alignment, bytes, table);
    case Release(slot) =>
      NeverDenied(heap, req, table);
      table' := ServeRelease(heap, slot, table);
      denied := false;
    case Resize(slot, bytes) => table', denied := ServeResize(heap, slot, bytes, table);
    case Write(slot, index, value) =>
      NeverDenied(heap, req, table);
      ServeWrite(heap, slot, index, value, table);
      table', denied := table, false;
  }

  lemma NeverDenied(heap: Heap, req: Request, table: seq<int>)
    requires req.Release? || req.Write?
    ensures Denies(heap, req, table, false)
  {
  }

  /** Any run: the heap stays valid, its arrays follow the specification step
      by step, and the client's pointers stay live and distinct. */
  method Run(heap: Heap, script: seq<Request>)
    returns (table: seq<int>, ghost trace: seq<Spec>, ghost denied: seq<bool>)
    requires heap.Valid()
    modifies heap
    ensures heap.Valid() && heap.footprint <= heap.heapSize && Tied(heap.Arrays(), table)
    ensures |denied| == |script| && |trace| == |script| + 1 && trace[0] == Spec(old(heap.Arrays()), [])
            && trace[|script|] == Spec(heap.Arrays(), table)
    ensures forall k :: 0 <= k < |script| ==> Step(trace[k], script[k], trace[k + 1], denied[k])
  {
    hide Books, Coalesced, ArraysOf, Step, Denies;
    table, denied := [], [];
    trace := [Spec(heap.Arrays(), [])];
    for i := 0 to |script|
      invariant heap.Valid() && Tied(heap.Arrays(), table)
      invariant |denied| == i && |trace| == i + 1 && trace[0] == Spec(old(heap.Arrays()), [])
                && trace[i] == Spec(heap.Arrays(), table)
      invariant forall k :: 0 <= k < i ==> Step(trace[k], script[k], trace[k + 1], denied[k])
    {
      ghost var no;
      table, no := Serve(heap, script[i], table);
      trace, denied := trace + [Spec(heap.Arrays(), table)], denied + [no];
    }
  }
}
