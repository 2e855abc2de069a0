/** What csim.c simulates: addresses cut into fields, and a cache that keeps one recency
    list per set. */
module CacheModel {
  import opened RecencyList

  // ---- addresses ----

  const ADDR_WIDTH: nat := 64

  function Pow2(n: nat): (p: int)
    ensures p >= 1
  {
    if n == 0 then 1 else 2 * Pow2(n - 1)
  }

  /** `inAddr >> (s + b)` */
  function TagOf(addr: int, s: nat, b: nat): int {
    addr / Pow2(s + b)
  }

  /** `(inAddr << bitTag) >> bitTag >> b` on 64-bit words, with bitTag = 64 - s - b. */
  function SetIndexOf(addr: int, s: nat, b: nat): int
    requires 0 < s + b < ADDR_WIDTH
  {
    var bitTag := ADDR_WIDTH - s - b;
    ((addr * Pow2(bitTag)) % Pow2(ADDR_WIDTH)) / Pow2(bitTag) / Pow2(b)
  }

  lemma {:induction false} Pow2Adds(m: nat, n: nat)
    ensures Pow2(m + n) == Pow2(m) * Pow2(n)
  {
    if m > 0 {
      Pow2Adds(m - 1, n);
      assert 2 * Pow2(m - 1) * Pow2(n) == 2 * (Pow2(m - 1) * Pow2(n));
    }
  }

  lemma DivideUnique(a: int, d: int, q: int, r: int)
    requires d >= 1 && a == d * q + r && 0 <= r < d
    ensures a / d == q && a % d == r
  {
    var q', r' := a / d, a % d;
    assert a == d * q' + r';
    if q' > q { Spread(d, q', q); }
    if q' < q { Spread(d, q, q'); }
  }

  lemma Scale(d: int, k: int)
    requires d >= 1 && k >= 1
    ensures d * k >= d
  {
  }

  lemma Spread(d: int, x: int, y: int)
    requires d >= 1 && x > y
    ensures d * x - d * y >= d
  {
    assert d * (x - y) == d * x - d * y;
    Scale(d, x - y);
  }

  /** Shifting left by t and right again in a width of t + w keeps the low w bits. */
  lemma LowBits(a: int, t: int, w: int)
    requires t >= 1 && w >= 1 && t * w >= 1
    ensures ((a * t) % (t * w)) / t == a % w
  {
    var q, r := a / w, a % w;
    assert a == w * q + r;
    Shifted(a, t, w, q, r);
    DivideUnique(a * t, t * w, q, r * t);
    DivideUnique(r * t, t, r, 0);
  }

  lemma Shifted(a: int, t: int, w: int, q: int, r: int)
    requires t >= 1 && w >= 1 && a == w * q + r && 0 <= r < w
    ensures a * t == (t * w) * q + r * t && 0 <= r * t < t * w
  {
    assert r * t <= (w - 1) * t;
  }

  /** tag, index and block offset together are the address. */
  predicate Fields(addr: int, tag: int, index: int, sets: int, blockSize: int)
    requires sets >= 1 && blockSize >= 1
  {
    && 0 <= index < sets
    && index == (addr / blockSize) % sets
    && addr == (tag * sets + index) * blockSize + addr % blockSize
  }

  /** The shifts cut the address into its three fields. */
  lemma AddressFields(addr: int, s: nat, b: nat)
    requires 0 <= addr && 0 < s + b < ADDR_WIDTH
    ensures Fields(addr, TagOf(addr, s, b), SetIndexOf(addr, s, b), Pow2(s), Pow2(b))
  {
    Pow2Adds(s, b);
    IndexBits(addr, s, b);
    hide Pow2, SetIndexOf, Fields;
    SplitFields(addr, Pow2(s), Pow2(b), Pow2(s + b));
  }

  lemma IndexBits(addr: int, s: nat, b: nat)
    requires 0 <= addr && 0 < s + b < ADDR_WIDTH
    ensures SetIndexOf(addr, s, b) == (addr % Pow2(s + b)) / Pow2(b)
  {
    var t := ADDR_WIDTH - s - b;
    Pow2Adds(t, s + b);
    assert t + (s + b) == ADDR_WIDTH;
    hide Pow2;
    ProductPositive(Pow2(t), Pow2(s + b));
    LowBits(addr, Pow2(t), Pow2(s + b));
  }

  lemma SplitFields(addr: int, ps: int, pb: int, psb: int)
    requires 0 <= addr && ps >= 1 && pb >= 1 && psb == ps * pb && psb >= 1
    ensures Fields(addr, addr / psb, (addr % psb) / pb, ps, pb)
  {
    var q := addr / pb;
    var off := addr % pb;
    var tag := q / ps;
    var idx := q % ps;
    assert addr == pb * q + off && q == ps * tag + idx;
    CombineFields(addr, ps, pb, psb, q, tag, idx, off);
  }

  lemma CombineFields(addr: int, ps: int, pb: int, psb: int, q: int, tag: int, idx: int, off: int)
    requires ps >= 1 && pb >= 1 && psb == ps * pb && psb >= 1
    requires addr == pb * q + off && q == ps * tag + idx && 0 <= off < pb && 0 <= idx < ps
    ensures addr / psb == tag && (addr % psb) / pb == idx
    ensures addr == (tag * ps + idx) * pb + off
  {
    Reassociate(ps, pb, tag, idx, off);
    FieldBound(ps, pb, idx, off);
    DivideUnique(addr, psb, tag, pb * idx + off);
    DivideUnique(pb * idx + off, pb, idx, off);
  }

  lemma ProductPositive(x: int, y: int)
    requires x >= 1 && y >= 1
    ensures x * y >= 1
  {
  }

  lemma Reassociate(ps: int, pb: int, tag: int, idx: int, off: int)
    ensures pb * (ps * tag + idx) + off == (ps * pb) * tag + (pb * idx + off)
    ensures (tag * ps + idx) * pb + off == pb * (ps * tag + idx) + off
  {
  }

  lemma FieldBound(ps: int, pb: int, idx: int, off: int)
    requires 0 <= idx < ps && 0 <= off < pb
    ensures 0 <= pb * idx + off < ps * pb
  {
    assert pb * idx <= pb * (ps - 1);
  }

  // ---- the reference simulator ----

  /** One recency list per set, and the three counters. */
  datatype Sim = Sim(sets: seq<seq<int>>, hits: int, misses: int, evictions: int)

  /** One line of a trace file; its size field is read and ignored. */
  datatype Record = Record(kind: char, addr: int)

  /** The shape of the cache: s set bits, e lines a set, b block bits. */
  datatype Shape = Shape(s: nat, e: nat, b: nat)

  predicate ShapeOk(c: Shape) {
    c.e >= 1 && c.s <= 31 && 0 < c.s + c.b < ADDR_WIDTH
  }

  function Access(m: Sim, e: nat, index: int, tag: int): Sim
    requires 0 <= index < |m.sets|
  {
    var l := m.sets[index];
    Sim(m.sets[index := Touch(l, e, tag)],
        m.hits + (if tag in l then 1 else 0),
        m.misses + (if tag in l then 0 else 1),
        m.evictions + (if tag !in l && |l| == e then 1 else 0))
  }

  /** The kinds of a trace; any other ends the program. */
  predicate ValidKind(kind: char) {
    kind == 'L' || kind == 'S' || kind == 'M' || kind == 'I'
  }

  function Instruction(m: Sim, c: Shape, r: Record): (after: Sim)
    requires ShapeOk(c) && r.addr >= 0 && |m.sets| == Pow2(c.s)
    ensures |after.sets| == |m.sets|
  {
    AddressFields(r.addr, c.s, c.b);
    var index := SetIndexOf(r.addr, c.s, c.b);
    var tag := TagOf(r.addr, c.s, c.b);
    if r.kind == 'M' then Access(Access(m, c.e, index, tag), c.e, index, tag)
    else if r.kind == 'L' || r.kind == 'S' then Access(m, c.e, index, tag)
    else m
  }

  ghost predicate TraceOk(trace: seq<Record>) {
    forall i | 0 <= i < |trace| :: trace[i].addr >= 0 && ValidKind(trace[i].kind)
  }

  function Start(c: Shape): Sim {
    Sim(seq(Pow2(c.s), _ => []), 0, 0, 0)
  }

  function Simulate(c: Shape, trace: seq<Record>): (m: Sim)
    requires ShapeOk(c) && TraceOk(trace)
    ensures |m.sets| == Pow2(c.s)
  {
    if trace == [] then Start(c)
    else Instruction(Simulate(c, trace[..|trace| - 1]), c, trace[|trace| - 1])
  }
}
