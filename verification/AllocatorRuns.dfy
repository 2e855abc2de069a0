/** Whole runs: any sequence of requests, releases, resizes and byte stores by a
    client sees the heap as a table of independent stores. */
module AllocatorRuns {
  import opened HeapWords
  import opened HeapTiling
  import opened FreeLists
  import opened HeapInvariant
  import opened Allocator

  /** A client names its blocks by slot; an operation on a slot that does not hold
      what the operation needs is skipped. */
  datatype Op =
    | Request(slot: nat, size: int)
    | Release(slot: nat)
    | Resize(slot: nat, size: int)
    | Put(slot: nat, offset: int, value: Byte)

  /** What a slot holds: the size asked for and the bytes stored so far. */
  datatype Entry = Entry(size: int, bytes: map<int, Byte>)

  type Table = map<nat, Entry>

  /** The simple memory: no addresses, no sharing. ok is whether memory was granted. */
  function TableStep(table: Table, op: Op, ok: bool): Table {
    match op
    case Request(slot, size) =>
      if ok && slot !in table then table[slot := Entry(size, map[])] else table
    case Release(slot) => table - {slot}
    case Resize(slot, size) =>
      if slot !in table then table
      else if size == 0 then table - {slot}
      else if ok then table[slot := Entry(size, Below(table[slot].bytes, size))]
      else table
    case Put(slot, offset, value) =>
      if slot in table && 0 <= offset < table[slot].size
      then table[slot := Entry(table[slot].size, table[slot].bytes[offset := value])]
      else table
  }

  function Below(bytes: map<int, Byte>, size: int): map<int, Byte> {
    map o | o in bytes && o < size :: bytes[o]
  }

  function TableRun(ops: seq<Op>, oks: seq<bool>): Table
    requires |ops| == |oks|
  {
    if ops == [] then map[]
    else TableStep(TableRun(ops[..|ops| - 1], oks[..|ops| - 1]), ops[|ops| - 1], oks[|ops| - 1])
  }

  /** The operation leaves byte o of the slot as it is. */
  predicate LeavesByte(op: Op, ok: bool, slot: nat, o: int) {
    match op
    case Request(_, _) => true
    case Release(s) => s != slot
    case Resize(s, size) => s != slot || (size != 0 && (ok ==> o < size))
    case Put(s, offset, _) => s != slot || offset != o
  }

  /** The operation gives the slot no other size. */
  predicate LeavesSize(op: Op, ok: bool, slot: nat) {
    match op
    case Release(s) => s != slot
    case Resize(s, size) => s != slot || (size != 0 && !ok)
    case _ => true
  }

  /** Operation i stored v as byte o of the slot, and since then nothing has touched it. */
  ghost predicate LastPut(ops: seq<Op>, oks: seq<bool>, slot: nat, o: int, v: Byte, i: int)
    requires |ops| == |oks|
  {
    && 0 <= i < |ops| && Puts(TableRun(ops[..i], oks[..i]), ops[i], slot, o, v)
    && (forall j | i < j < |ops| :: LeavesByte(ops[j], oks[j], slot, o))
  }

  /** Operation i gave the slot this size, and since then nothing has changed it. */
  ghost predicate LastSized(ops: seq<Op>, oks: seq<bool>, slot: nat, size: int, i: int)
    requires |ops| == |oks|
  {
    && 0 <= i < |ops| && Sizes(TableRun(ops[..i], oks[..i]), ops[i], oks[i], slot, size)
    && (forall j | i < j < |ops| :: LeavesSize(ops[j], oks[j], slot))
  }

  ghost predicate HasSize(t: Table, slot: nat, size: int) {
    slot in t && t[slot].size == size
  }

  ghost predicate HasValue(t: Table, slot: nat, o: int, v: Byte) {
    slot in t && o in t[slot].bytes && t[slot].bytes[o] == v
  }

  /** In every run of the simple memory a slot has the size it was given last. */
  lemma {:induction false} SizeIsLast(ops: seq<Op>, oks: seq<bool>, slot: nat, size: int)
    requires |ops| == |oks|
    ensures HasSize(TableRun(ops, oks), slot, size) <==> exists i :: LastSized(ops, oks, slot, size, i)
  {
    if ops != [] {
      var n := |ops| - 1;
      SizeIsLast(ops[..n], oks[..n], slot, size);
      var t := TableRun(ops[..n], oks[..n]);
      SizeStep(t, ops[n], oks[n], slot, size);
      assert forall i | 0 <= i < n :: ops[..n][..i] == ops[..i] && oks[..n][..i] == oks[..i];
      hide TableRun, TableStep;
      assert forall i | 0 <= i < n :: LastSized(ops, oks, slot, size, i) <==>
        LastSized(ops[..n], oks[..n], slot, size, i) && LeavesSize(ops[n], oks[n], slot);
      assert LastSized(ops, oks, slot, size, n) <==> Sizes(t, ops[n], oks[n], slot, size);
    }
  }

  ghost predicate Sizes(t: Table, op: Op, ok: bool, slot: nat, size: int) {
    ok && ((op == Request(slot, size) && slot !in t) || (op == Resize(slot, size) && size != 0 && slot in t))
  }

  lemma SizeStep(t: Table, op: Op, ok: bool, slot: nat, size: int)
    ensures HasSize(TableStep(t, op, ok), slot, size) <==>
              Sizes(t, op, ok, slot, size) || (HasSize(t, slot, size) && LeavesSize(op, ok, slot))
  {
    hide Below;
  }

  /** And its bytes are the ones stored last; there are no others. */
  lemma {:induction false} ByteIsLast(ops: seq<Op>, oks: seq<bool>, slot: nat, o: int, v: Byte)
    requires |ops| == |oks|
    ensures HasValue(TableRun(ops, oks), slot, o, v) <==> exists i :: LastPut(ops, oks, slot, o, v, i)
    ensures HasValue(TableRun(ops, oks), slot, o, v) ==> 0 <= o < TableRun(ops, oks)[slot].size
  {
    if ops != [] {
      var n := |ops| - 1;
      ByteIsLast(ops[..n], oks[..n], slot, o, v);
      var t := TableRun(ops[..n], oks[..n]);
      ByteStep(t, ops[n], oks[n], slot, o, v);
      assert forall i | 0 <= i < n :: ops[..n][..i] == ops[..i] && oks[..n][..i] == oks[..i];
      hide TableRun, TableStep;
      assert forall i | 0 <= i < n :: LastPut(ops, oks, slot, o, v, i) <==>
        LastPut(ops[..n], oks[..n], slot, o, v, i) && LeavesByte(ops[n], oks[n], slot, o);
      assert LastPut(ops, oks, slot, o, v, n) <==> Puts(t, ops[n], slot, o, v);
    }
  }

  ghost predicate Puts(t: Table, op: Op, slot: nat, o: int, v: Byte) {
    op == Put(slot, o, v) && slot in t && 0 <= o < t[slot].size
  }

  lemma ByteStep(t: Table, op: Op, ok: bool, slot: nat, o: int, v: Byte)
    requires HasValue(t, slot, o, v) ==> 0 <= o < t[slot].size
    ensures HasValue(TableStep(t, op, ok), slot, o, v) ==> 0 <= o < TableStep(t, op, ok)[slot].size
    ensures HasValue(TableStep(t, op, ok), slot, o, v) <==>
              Puts(t, op, slot, o, v) || (HasValue(t, slot, o, v) && LeavesByte(op, ok, slot, o))
  {
  }

  /** Slot s of the table is the live block at p. */
  ghost predicate Holds(mem: Memory, live: map<int, int>, p: int, e: Entry) {
    && p in live && 0 < e.size <= live[p] - 8
    && (forall o | o in e.bytes :: 0 <= o < e.size && HasByte(mem, p + o) && GetByte(mem, p + o) == e.bytes[o])
  }

  ghost predicate Agrees(mem: Memory, live: map<int, int>, vars: map<nat, int>, table: Table) {
    && vars.Keys == table.Keys
    && (forall s | s in table :: s in vars && Holds(mem, live, vars[s], table[s]))
    && (forall s, u | s in vars && u in vars && s != u :: vars[s] != vars[u])
  }

  lemma HoldsKept(m0: Memory, m: Memory, live0: map<int, int>, live: map<int, int>, p: int, e: Entry)
    requires Holds(m0, live0, p, e) && p % 8 == 0
    requires p in live && live[p] == live0[p]
    requires Untouched(m0, m, live)
    ensures Holds(m, live, p, e)
  {
    hide GetByte, HasByte, Untouched;
    forall o | o in e.bytes ensures HasByte(m, p + o) && GetByte(m, p + o) == e.bytes[o] {
      UntouchedByte(m0, m, live, p, p + o);
    }
  }

  /** Slots whose blocks stay live, size and words unchanged, keep their entries. */
  lemma AgreesKept(m0: Memory, m: Memory, live0: map<int, int>, live: map<int, int>, kept: map<int, int>,
                   vars: map<nat, int>, table: Table)
    requires Agrees(m0, live0, vars, table)
    requires forall s | s in vars :: vars[s] in kept
    requires forall q | q in kept :: q % 8 == 0 && q in live0 && q in live && kept[q] == live0[q] == live[q]
    requires Untouched(m0, m, kept)
    ensures Agrees(m, live, vars, table)
  {
    hide Untouched, Holds;
    forall s | s in table ensures Holds(m, live, vars[s], table[s]) {
      assert Holds(m0, live0, vars[s], table[s]);
      HoldsKept'(m0, m, live0, live, kept, vars[s], table[s]);
    }
  }

  lemma HoldsKept'(m0: Memory, m: Memory, live0: map<int, int>, live: map<int, int>, kept: map<int, int>,
                   p: int, e: Entry)
    requires Holds(m0, live0, p, e) && p in kept && p % 8 == 0
    requires p in live && kept[p] == live0[p] == live[p]
    requires Untouched(m0, m, kept)
    ensures Holds(m, live, p, e)
  {
    hide GetByte, HasByte;
    assert Holds(m0, kept, p, e);
    HoldsKept(m0, m, kept, kept, p, e);
  }

  // ---- when memory is granted ----

  /** How far an operation can make the heap grow. */
  function Demand(op: Op): (bytes: int)
    ensures bytes >= 0
  {
    if (op.Request? || op.Resize?) && op.size > 0 then
      if AdjustedSize(op.size) > CHUNKSIZE then AdjustedSize(op.size) else CHUNKSIZE
    else 0
  }

  function TotalDemand(ops: seq<Op>): int {
    if ops == [] then 0 else TotalDemand(ops[..|ops| - 1]) + Demand(ops[|ops| - 1])
  }

  /** The operation asks for memory. */
  predicate Wants(table: Table, op: Op) {
    || (op.Request? && op.slot !in table && op.size > 0)
    || (op.Resize? && op.slot in table && op.size > 0)
  }

  /** The break, counting the prologue and the first chunk before they are asked for. */
  function InitialBrk(h: Heap): int
    reads h
  {
    if h.heapListp == NULL then h.base + 16 + CHUNKSIZE else h.brk
  }

  /** The heap may grow by the operation's demand. */
  predicate Granted(h: Heap, brk: int, op: Op, answers: SbrkAnswers) {
    answers.more && brk - h.base + Demand(op) <= MAX_HEAP
  }

  // ---- one operation ----

  lemma LiveAligned(h: Heap)
    requires h.Ready()
    ensures forall q | q in Live(h.blocks) :: q % 8 == 0
  {
    LiveSizes(h.blocks);
    assert h.Valid() ==> Aligned(h.blocks);
  }

  /** A slot in use means that the heap has been initialised. */
  lemma SlotMeansValid(h: Heap, vars: map<nat, int>, table: Table, slot: nat)
    requires h.Ready() && slot in vars
    requires Agrees(h.mem, Live(h.blocks), vars, table)
    ensures h.Valid() && h.heapListp != NULL && vars[slot] in Live(h.blocks)
  {
    hide HeapOk, Coalesced, Holds;
    VarsLive(h.mem, Live(h.blocks), vars, table);
    h.LiveMeansInitialised(vars[slot]);
  }

  method DoRequest(h: Heap, slot: nat, size: int, answers: SbrkAnswers, vars: map<nat, int>, ghost table: Table)
      returns (ok: bool, newVars: map<nat, int>)
    requires h.Ready() && 0 <= size <= MAX_REQUEST && slot !in vars
    requires h.heapListp == NULL ==> answers.prologue
    requires Agrees(h.mem, Live(h.blocks), vars, table)
    modifies h`mem, h`brk, h`heapListp, h`heads, h`lists, h`blocks
    ensures h.Valid()
    ensures Agrees(h.mem, Live(h.blocks), newVars, TableStep(table, Request(slot, size), ok))
    ensures ok ==> size > 0
    ensures Granted(h, old(InitialBrk(h)), Request(slot, size), answers) ==> (ok <==> size > 0)
    ensures InitialBrk(h) <= old(InitialBrk(h)) + Demand(Request(slot, size))
  {
    hide HeapOk, Coalesced, Untouched, Live, HasFit, BestClassFit, Holds;
    LiveAligned(h);
    ghost var m0, live0 := h.mem, Live(h.blocks);
    VarsLive(h.mem, live0, vars, table);
    var p := h.Malloc(size, answers);
    ok := p != NULL;
    LiveAligned(h);
    h.InitialisedHeap();
    AgreesKept(m0, h.mem, live0, Live(h.blocks), live0, vars, table);
    newVars := vars;
    if ok {
      newVars := vars[slot := p];
      NewSlot(h.mem, Live(h.blocks), vars, table, slot, p, size);
    }
  }

  lemma VarsLive(mem: Memory, live: map<int, int>, vars: map<nat, int>, table: Table)
    requires Agrees(mem, live, vars, table)
    ensures forall s | s in vars :: s in table && vars[s] in live
  {
    forall s | s in vars ensures s in table && vars[s] in live {
      assert s in vars.Keys;
      assert Holds(mem, live, vars[s], table[s]);
    }
  }

  lemma NewSlot(mem: Memory, live: map<int, int>, vars: map<nat, int>, table: Table, slot: nat, p: int, size: int)
    requires Agrees(mem, live, vars, table) && slot !in vars
    requires p in live && 0 < size <= live[p] - 8
    requires forall s | s in vars :: vars[s] != p
    ensures Agrees(mem, live, vars[slot := p], table[slot := Entry(size, map[])])
  {
    hide GetByte, HasByte;
    assert Holds(mem, live, p, Entry(size, map[]));
    hide Holds;
    assert slot !in table.Keys;
  }

  method DoRelease(h: Heap, slot: nat, answers: SbrkAnswers, vars: map<nat, int>, ghost table: Table)
      returns (newVars: map<nat, int>)
    requires h.Valid() && slot in vars
    requires Agrees(h.mem, Live(h.blocks), vars, table)
    modifies h`mem, h`brk, h`heapListp, h`heads, h`lists, h`blocks
    ensures h.Valid()
    ensures Agrees(h.mem, Live(h.blocks), newVars, TableStep(table, Release(slot), true))
    ensures InitialBrk(h) == old(InitialBrk(h))
  {
    hide HeapOk, Coalesced, Untouched, Live, Holds;
    LiveAligned(h);
    h.InitialisedHeap();
    ghost var m0, live0 := h.mem, Live(h.blocks);
    VarsLive(h.mem, live0, vars, table);
    h.LiveTags(vars[slot]);
    h.Free(vars[slot], answers);
    newVars := vars - {slot};
    LessSlot(m0, live0, vars, table, slot);
    AgreesKept(m0, h.mem, live0, Live(h.blocks), Live(h.blocks), newVars, table - {slot});
  }

  lemma LessSlot(mem: Memory, live: map<int, int>, vars: map<nat, int>, table: Table, slot: nat)
    requires Agrees(mem, live, vars, table) && slot in vars
    ensures Agrees(mem, live, vars - {slot}, table - {slot})
    ensures forall s | s in vars - {slot} :: vars[s] != vars[slot] && vars[s] in live
  {
    VarsLive(mem, live, vars, table);
    hide Holds;
    assert (vars - {slot}).Keys == vars.Keys - {slot};
    assert (table - {slot}).Keys == table.Keys - {slot};
  }

  method DoResize(h: Heap, slot: nat, size: int, answers: SbrkAnswers, vars: map<nat, int>, ghost table: Table)
      returns (ok: bool, newVars: map<nat, int>)
    requires h.Valid() && 0 < size <= MAX_REQUEST && slot in vars
    requires Agrees(h.mem, Live(h.blocks), vars, table)
    modifies h`mem, h`brk, h`heapListp, h`heads, h`lists, h`blocks
    ensures h.Valid()
    ensures Agrees(h.mem, Live(h.blocks), newVars, TableStep(table, Resize(slot, size), ok))
    ensures Granted(h, old(InitialBrk(h)), Resize(slot, size), answers) ==> ok
    ensures InitialBrk(h) <= old(InitialBrk(h)) + Demand(Resize(slot, size))
  {
    hide HeapOk, Coalesced, Untouched, Live, HasFit, BestClassFit, Holds, SameBytes;
    LiveAligned(h);
    h.InitialisedHeap();
    ghost var m0, live0 := h.mem, Live(h.blocks);
    VarsLive(h.mem, live0, vars, table);
    h.LiveTags(vars[slot]);
    var p := h.Realloc(vars[slot], size, answers);
    ok := p != NULL;
    newVars := vars;
    if ok {
      LiveAligned(h);
      newVars := (vars - {slot})[slot := p];
      assert newVars == vars[slot := p];
      LessSlot(m0, live0, vars, table, slot);
      ghost var rest := live0 - {vars[slot]};
      AgreesKept(m0, h.mem, live0, Live(h.blocks), rest, vars - {slot}, table - {slot});
      MovedEntry(m0, h.mem, live0, Live(h.blocks), vars[slot], p, table[slot], size);
      MovedSlot(h.mem, Live(h.blocks), vars - {slot}, table - {slot}, slot, p,
                Entry(size, Below(table[slot].bytes, size)));
      assert (table - {slot})[slot := Entry(size, Below(table[slot].bytes, size))]
          == table[slot := Entry(size, Below(table[slot].bytes, size))];
    }
  }

  lemma MovedEntry(m0: Memory, m: Memory, live0: map<int, int>, live: map<int, int>, old_: int, p: int,
                   e: Entry, size: int)
    requires Holds(m0, live0, old_, e) && p in live && 0 < size <= live[p] - 8
    requires SameBytes(m0, old_, m, p, if size < live0[old_] - 8 then size else live0[old_] - 8)
    ensures Holds(m, live, p, Entry(size, Below(e.bytes, size)))
  {
    hide GetByte, HasByte;
    var b := Below(e.bytes, size);
    forall o | o in b ensures 0 <= o < size && HasByte(m, p + o) && GetByte(m, p + o) == b[o] {
      var x := old_ + o;
      assert HasByte(m0, x);
      assert p + (x - old_) == p + o;
    }
  }

  lemma MovedSlot(mem: Memory, live: map<int, int>, vars: map<nat, int>, table: Table, slot: nat, p: int, e: Entry)
    requires Agrees(mem, live, vars, table) && slot !in vars
    requires Holds(mem, live, p, e)
    requires forall s | s in vars :: vars[s] != p
    ensures Agrees(mem, live, vars[slot := p], table[slot := e])
  {
    hide Holds;
    assert slot !in table.Keys;
  }

  method DoPut(h: Heap, slot: nat, offset: int, value: Byte, vars: map<nat, int>, ghost table: Table)
    requires h.Valid() && slot in vars && slot in table && 0 <= offset < table[slot].size
    requires Agrees(h.mem, Live(h.blocks), vars, table)
    modifies h`mem
    ensures h.Valid()
    ensures Agrees(h.mem, Live(h.blocks), vars, TableStep(table, Put(slot, offset, value), true))
  {
    hide HeapOk, Coalesced, Untouched, Live, GetByte, HasByte;
    LiveAligned(h);
    ghost var m0, live0 := h.mem, Live(h.blocks);
    VarsLive(h.mem, live0, vars, table);
    var p := vars[slot];
    assert Holds(m0, live0, p, table[slot]);
    h.LiveBytes(p, p + offset);
    LessSlot(m0, live0, vars, table, slot);
    hide Agrees, Holds;
    h.StoreByte(p, offset, value);
    AgreesKept(m0, h.mem, live0, live0, live0 - {p}, vars - {slot}, table - {slot});
    var e := Entry(table[slot].size, table[slot].bytes[offset := value]);
    StoredEntry(m0, h.mem, live0, p, table[slot], offset, value);
    MovedSlot(h.mem, live0, vars - {slot}, table - {slot}, slot, p, e);
    assert (vars - {slot})[slot := p] == vars;
    assert (table - {slot})[slot := e] == table[slot := e];
  }

  lemma StoredEntry(m0: Memory, m: Memory, live: map<int, int>, p: int, e: Entry, offset: int, value: Byte)
    requires Holds(m0, live, p, e) && 0 <= offset < e.size
    requires HasByte(m0, p + offset)
    requires forall x | HasByte(m0, x) ::
               HasByte(m, x) && GetByte(m, x) == if x == p + offset then value else GetByte(m0, x)
    ensures Holds(m, live, p, Entry(e.size, e.bytes[offset := value]))
  {
    hide GetByte, HasByte;
  }

  function SlotSizes(table: Table): map<nat, int> {
    map s | s in table :: table[s].size
  }

  lemma EmptyAgrees(mem: Memory, live: map<int, int>)
    ensures Agrees(mem, live, map[], map[])
  {
  }

  predicate WithinLimit(op: Op) {
    op.Request? || op.Resize? ==> 0 <= op.size <= MAX_REQUEST
  }

  method Step(h: Heap, op: Op, answers: SbrkAnswers, vars: map<nat, int>, sizes: map<nat, int>, ghost table: Table)
      returns (ok: bool, newVars: map<nat, int>, newSizes: map<nat, int>)
    requires h.Ready() && WithinLimit(op)
    requires h.heapListp == NULL ==> answers.prologue
    requires Agrees(h.mem, Live(h.blocks), vars, table) && sizes == SlotSizes(table)
    modifies h`mem, h`brk, h`heapListp, h`heads, h`lists, h`blocks
    ensures h.Ready()
    ensures Agrees(h.mem, Live(h.blocks), newVars, TableStep(table, op, ok))
    ensures newSizes == SlotSizes(TableStep(table, op, ok))
    ensures old(h.heapListp) != NULL ==> h.heapListp != NULL
    ensures ok ==> Wants(table, op)
    ensures Granted(h, old(InitialBrk(h)), op, answers) ==> (ok <==> Wants(table, op))
    ensures InitialBrk(h) <= old(InitialBrk(h)) + Demand(op)
  {
    hide HeapOk, Coalesced, Untouched, Live, Agrees, Below, TableStep, SlotSizes;
    SameSlots(h.mem, Live(h.blocks), vars, table);
    SizesAgree(table);
    ok, newVars, newSizes := false, vars, sizes;
    StepSizes(table, op);
    match op
    case Request(slot, size) =>
      if slot !in vars {
        ok, newVars := DoRequest(h, slot, size, answers, vars, table);
        if ok { newSizes := sizes[slot := size]; }
      }
    case Release(slot) =>
      if slot in vars {
        SlotMeansValid(h, vars, table, slot);
        newVars := DoRelease(h, slot, answers, vars, table);
        newSizes := sizes - {slot};
      }
    case Resize(slot, size) =>
      if slot in vars {
        SlotMeansValid(h, vars, table, slot);
        if size == 0 {
          newVars := DoRelease(h, slot, answers, vars, table);
          newSizes := sizes - {slot};
        } else {
          ok, newVars := DoResize(h, slot, size, answers, vars, table);
          if ok { newSizes := sizes[slot := size]; }
        }
      }
    case Put(slot, offset, value) =>
      if slot in vars && 0 <= offset < sizes[slot] {
        SlotMeansValid(h, vars, table, slot);
        DoPut(h, slot, offset, value, vars, table);
      }
  }

  lemma SizesAgree(table: Table)
    ensures forall s :: s in SlotSizes(table) <==> s in table
    ensures forall s | s in table :: SlotSizes(table)[s] == table[s].size
  {
  }

  /** How one step shows in the sizes, case by case. */
  lemma StepSizes(table: Table, op: Op)
    ensures match op
            case Request(slot, size) =>
              && TableStep(table, op, false) == table
              && (slot in table ==> TableStep(table, op, true) == table)
              && (slot !in table ==> SlotSizes(TableStep(table, op, true)) == SlotSizes(table)[slot := size])
            case Release(slot) =>
              && TableStep(table, op, false) == TableStep(table, op, true)
              && SlotSizes(TableStep(table, op, true)) == SlotSizes(table) - {slot}
              && (slot !in table ==> TableStep(table, op, true) == table)
            case Resize(slot, size) =>
              && (slot !in table ==> TableStep(table, op, false) == table)
              && (slot in table && size == 0 ==>
                    && TableStep(table, op, false) == TableStep(table, Release(slot), true)
                    && SlotSizes(TableStep(table, op, false)) == SlotSizes(table) - {slot})
              && (slot in table && size != 0 ==>
                    && TableStep(table, op, false) == table
                    && SlotSizes(TableStep(table, op, true)) == SlotSizes(table)[slot := size])
            case Put(slot, offset, value) =>
              && TableStep(table, op, false) == TableStep(table, op, true)
              && SlotSizes(TableStep(table, op, true)) == SlotSizes(table)
              && (slot !in table || !(0 <= offset < table[slot].size) ==> TableStep(table, op, true) == table)
  {
    hide Below, SlotSizes;
    match op
    case Request(slot, size) => SizesSet(table, slot, Entry(size, map[]));
    case Release(slot) => SizesDrop(table, slot); assert slot !in table ==> table - {slot} == table;
    case Resize(slot, size) =>
      SizesDrop(table, slot);
      if slot in table { SizesSet(table, slot, Entry(size, Below(table[slot].bytes, size))); }
    case Put(slot, offset, value) =>
      if slot in table {
        SizesAgree(table);
        SizesSet(table, slot, Entry(table[slot].size, table[slot].bytes[offset := value]));
        assert SlotSizes(table)[slot := table[slot].size] == SlotSizes(table);
      }
  }

  lemma SizesSet(table: Table, slot: nat, e: Entry)
    ensures SlotSizes(table[slot := e]) == SlotSizes(table)[slot := e.size]
  {
  }

  lemma SizesDrop(table: Table, slot: nat)
    ensures SlotSizes(table - {slot}) == SlotSizes(table) - {slot}
  {
  }

  lemma SameSlots(mem: Memory, live: map<int, int>, vars: map<nat, int>, table: Table)
    requires Agrees(mem, live, vars, table)
    ensures forall s :: s in vars <==> s in table
  {
    hide Holds;
    forall s ensures s in vars <==> s in table {
      assert s in vars.Keys <==> s in table.Keys;
    }
  }

  /** Operation i of the run is given memory only if it asks for it; and it is, if the
      system does not refuse and the demands so far fit the largest heap above brk. */
  ghost predicate FairAt(base: int, brk: int, ops: seq<Op>, oks: seq<bool>, answers: seq<SbrkAnswers>, i: int)
    requires |ops| == |oks| == |answers| && 0 <= i < |ops|
  {
    && (oks[i] ==> Wants(TableRun(ops[..i], oks[..i]), ops[i]))
    && (answers[i].more && brk - base + TotalDemand(ops[..i + 1]) <= MAX_HEAP ==>
          (oks[i] <==> Wants(TableRun(ops[..i], oks[..i]), ops[i])))
  }

  ghost predicate Fair(base: int, brk: int, ops: seq<Op>, oks: seq<bool>, answers: seq<SbrkAnswers>) {
    && |ops| == |oks| == |answers|
    && (forall i | 0 <= i < |ops| :: FairAt(base, brk, ops, oks, answers, i))
  }

  lemma FairOneMore(base: int, brk: int, ops: seq<Op>, oks: seq<bool>, answers: seq<SbrkAnswers>,
                    op: Op, ok: bool, answer: SbrkAnswers)
    requires Fair(base, brk, ops, oks, answers)
    requires ok ==> Wants(TableRun(ops, oks), op)
    requires answer.more && brk - base + TotalDemand(ops) + Demand(op) <= MAX_HEAP ==>
               (ok <==> Wants(TableRun(ops, oks), op))
    ensures Fair(base, brk, ops + [op], oks + [ok], answers + [answer])
  {
    hide TotalDemand, TableRun, Wants, Demand;
    var ops', oks', answers' := ops + [op], oks + [ok], answers + [answer];
    forall i | 0 <= i < |ops'| ensures FairAt(base, brk, ops', oks', answers', i) {
      assert ops'[..i] == ops[..i] && oks'[..i] == oks[..i];
      if i < |ops| {
        assert FairAt(base, brk, ops, oks, answers, i);
        assert ops'[..i + 1] == ops[..i + 1];
      } else {
        assert ops[..i] == ops && oks[..i] == oks && ops'[..i + 1] == ops';
        DemandOneMore(ops, op);
      }
    }
  }

  /** The client's view of every run is the run of the simple memory, from the first
      call on, and memory is granted fairly. */
  method Run(h: Heap, ops: seq<Op>, answers: seq<SbrkAnswers>) returns (oks: seq<bool>, vars: map<nat, int>)
    requires h.Ready() && |answers| == |ops|
    requires h.heapListp == NULL ==> forall i | 0 <= i < |ops| :: answers[i].prologue
    requires forall i | 0 <= i < |ops| :: WithinLimit(ops[i])
    modifies h`mem, h`brk, h`heapListp, h`heads, h`lists, h`blocks
    ensures h.Ready() && |oks| == |ops|
    ensures Agrees(h.mem, Live(h.blocks), vars, TableRun(ops, oks))
    ensures InitialBrk(h) <= old(InitialBrk(h)) + TotalDemand(ops)
    ensures Fair(h.base, old(InitialBrk(h)), ops, oks, answers)
  {
    hide HeapOk, Coalesced, Untouched, Live, Agrees, TableStep, TableRun, TotalDemand, Wants, Demand, Fair,
         SlotSizes, InitialBrk, Heap.Ready;
    ghost var brk0 := InitialBrk(h);
    oks, vars := [], map[];
    var sizes: map<nat, int> := map[];
    ghost var table: Table := map[];
    EmptyAgrees(h.mem, Live(h.blocks));
    NothingRun(h.base, brk0);
    for i := 0 to |ops|
      invariant h.Ready() && |oks| == i && (old(h.heapListp) != NULL ==> h.heapListp != NULL)
      invariant table == TableRun(ops[..i], oks)
      invariant Agrees(h.mem, Live(h.blocks), vars, table)
      invariant sizes == SlotSizes(table)
      invariant InitialBrk(h) <= brk0 + TotalDemand(ops[..i])
      invariant Fair(h.base, brk0, ops[..i], oks, answers[..i])
    {
      var ok;
      ok, vars, sizes := Step(h, ops[i], answers[i], vars, sizes, table);
      FairOneMore(h.base, brk0, ops[..i], oks, answers[..i], ops[i], ok, answers[i]);
      DemandOneMore(ops[..i], ops[i]);
      RunOneMore(ops[..i], oks, ops[i], ok);
      assert ops[..i] + [ops[i]] == ops[..i + 1] && answers[..i] + [answers[i]] == answers[..i + 1];
      table := TableStep(table, ops[i], ok);
      oks := oks + [ok];
    }
    assert ops[..|ops|] == ops && answers[..|ops|] == answers;
  }

  lemma NothingRun(base: int, brk: int)
    ensures Fair(base, brk, [], [], []) && TotalDemand([]) == 0
    ensures TableRun([], []) == map[] && SlotSizes(map[]) == map[]
  {
  }

  lemma DemandOneMore(ops: seq<Op>, op: Op)
    ensures TotalDemand(ops + [op]) == TotalDemand(ops) + Demand(op)
  {
    assert (ops + [op])[..|ops|] == ops;
  }

  lemma RunOneMore(ops: seq<Op>, oks: seq<bool>, op: Op, ok: bool)
    requires |ops| == |oks|
    ensures TableRun(ops + [op], oks + [ok]) == TableStep(TableRun(ops, oks), op, ok)
  {
    hide TableStep;
    assert (ops + [op])[..|ops|] == ops && (oks + [ok])[..|ops|] == oks;
  }

  // ---- releasing everything ----

  lemma BodyNotEmpty(h: Heap, p: int)
    requires h.Valid() && p in Live(h.blocks)
    ensures h.brk > h.base + 16
  {
    LiveSizes(h.blocks);
    assert Bounded(h.blocks, h.base + 16, h.brk);
  }

  /** Freeing every live block, in whatever order, leaves one free block from the
      prologue to the epilogue. */
  method FreeAll(h: Heap, order: seq<int>, answers: SbrkAnswers)
    requires h.Valid() && NoRepeats(order)
    requires forall p :: p in order <==> p in Live(h.blocks)
    modifies h`mem, h`brk, h`heapListp, h`heads, h`lists, h`blocks
    ensures h.Valid() && h.brk == old(h.brk) && Live(h.blocks) == map[]
    ensures order != [] ==> h.blocks == map[h.base + 16 := Block(h.brk - h.base - 16, false)]
  {
    hide HeapOk, Coalesced, Untouched, Live;
    ghost var live := Live(h.blocks);
    if order != [] {
      assert order[0] in order;
      BodyNotEmpty(h, order[0]);
    }
    for i := 0 to |order|
      invariant h.Valid() && h.brk == old(h.brk)
      invariant Live(h.blocks) == live - set k | 0 <= k < i :: order[k]
      invariant order != [] ==> h.brk > h.base + 16
    {
      h.InitialisedHeap();
      assert order[i] in order && forall k | 0 <= k < i :: order[k] != order[i];
      h.LiveTags(order[i]);
      h.Free(order[i], answers);
    }
    forall p | p in live ensures p in set k | 0 <= k < |order| :: order[k] {
      assert p in order;
    }
    assert Live(h.blocks) == map[];
    if order != [] {
      h.OneFreeBlock();
    }
  }
}
