/** emutls.c: thread-local variables without support from the loader. Threads take the steps of
    __emutls_get_address in any order; loads and stores of an index are atomic. */
module Emutls {
  import opened Arithmetic

  // ----- words as bits -----

  function And(a: nat, b: nat): nat {
    if a == 0 || b == 0 then 0 else 2 * And(a / 2, b / 2) + if a % 2 == 1 && b % 2 == 1 then 1 else 0
  }

  predicate PowerOfTwo(n: nat) { n == 1 || (n > 1 && n % 2 == 0 && PowerOfTwo(n / 2)) }

  /** The test that emutls_allocate_object makes on an alignment. */
  lemma {:induction false} PowerTest(n: nat)
    requires n > 0
    ensures And(n, n - 1) == 0 <==> PowerOfTwo(n)
    decreases n
  {
    if n > 1 {
      if n % 2 == 0 {
        PowerTest(n / 2);
        assert (n - 1) / 2 == n / 2 - 1;
      } else {
        assert n / 2 > 0 && (n - 1) / 2 == n / 2;
        AndSelf(n / 2);
      }
    }
  }

  lemma {:induction false} AndSelf(n: nat)
    ensures And(n, n) == n
  {
    if n > 0 { AndSelf(n / 2); }
  }

  /** Under the mask of a power of two stands the remainder. */
  lemma {:induction false} MaskMod(x: nat, n: nat)
    requires PowerOfTwo(n)
    ensures And(x, n - 1) == x % n
    decreases n
  {
    if n > 1 {
      MaskMod(x / 2, n / 2);
      assert (n - 1) / 2 == n / 2 - 1 && (n - 1) % 2 == 1;
      HalfMod(x, n / 2);
      if n == 2 { assert And(x / 2, 0) == 0; }
    }
  }

  lemma HalfMod(x: nat, h: nat)
    requires h > 0
    ensures x % (2 * h) == 2 * (x / 2 % h) + x % 2
  {
    var q, r := x / 2 / h, x / 2 % h;
    assert x == 2 * h * q + (2 * r + x % 2);
    ModIs(x, q, 2 * r + x % 2, 2 * h);
  }

  // ----- allocation -----

  const WORD: nat := 8

  type Byte = b: int | 0 <= b < 256

  /** What a control variable says about its object. The initial value is empty for a null
      pointer, and otherwise as long as the object. */
  datatype Control = Control(id: nat, size: nat, align: nat, value: seq<Byte>)

  /** memcpy or memset of a new object, byte by byte. */
  function InitialByte(c: Control, x: nat): Byte { if x < |c.value| then c.value[x] else 0 }

  function Align(c: Control): (a: nat) ensures a >= WORD { if c.align < WORD then WORD else c.align }

  /** A piece of memory that malloc handed out. */
  datatype Block = Block(start: nat, len: nat)

  predicate Apart(x: Block, y: Block) { x.start + x.len <= y.start || y.start + y.len <= x.start }

  function Extra(align: nat): nat requires align > 0 { align - 1 + WORD }

  /** emutls_memalign_alloc: x & ~(align - 1) is x less the bits under the mask. */
  function Base(block: Block, align: nat): int
    requires align > 0
  {
    var x := block.start + Extra(align);
    x - And(x, align - 1)
  }

  /** The object is aligned and inside its block, with room before it for the block's address. */
  lemma BaseInside(block: Block, align: nat, size: nat)
    requires PowerOfTwo(align) && block.len == Extra(align) + size
    ensures var b := Base(block, align);
      b % align == 0 && block.start + WORD <= b && b + size <= block.start + block.len
  {
    hide And;
    var x := block.start + Extra(align);
    MaskMod(x, align);
    RoundedDown(x, align);
  }

  lemma RoundedDown(x: nat, n: nat)
    requires n > 0
    ensures (x - x % n) % n == 0 && x - n < x - x % n <= x
  {
    var q := x / n;
    assert x - x % n == n * q;
    ModIs(n * q, q, 0, n);
  }

  /** emutls_new_data_array_size: two words of header, the whole a multiple of 16 words. */
  function NewSize(index: nat): int {
    var x := index + 2 + 15;
    x - And(x, 15) - 2
  }

  lemma NewSizeIs(index: nat)
    ensures index <= NewSize(index) < index + 16 && (NewSize(index) + 2) % 16 == 0
  {
    hide And;
    Sixteen();
    MaskMod(index + 17, 16);
    RoundedDown(index + 17, 16);
  }

  lemma Sixteen()
    ensures PowerOfTwo(16)
  {
    assert PowerOfTwo(2) && PowerOfTwo(4) && PowerOfTwo(8);
  }

  // ----- the machine -----

  type Thread = nat

  /** An entry of a thread's array: null, or an object and the block it lies in. */
  datatype Slot = Null | Object(base: nat, block: Block)

  /** Where a thread is. */
  datatype Pc =
    | Idle
    | Loading(c: Control)           // before the first look at the index
    | Locking(c: Control)           // it was zero
    | Checking(c: Control)          // the mutex is held
    | Storing(c: Control, i: nat)   // the counter was raised
    | Unlocking(c: Control, i: nat)
    | Indexed(c: Control, i: nat)
    | Sized(c: Control, i: nat)     // the array has an entry for the index
    | Returned(c: Control, address: nat)
    | Aborted

  datatype Lock = Free | HeldBy(t: Thread)

  datatype State = State(
    index: map<Control, nat>, num: nat, lock: Lock, pc: map<Thread, Pc>, arrays: map<Thread, seq<Slot>>, blocks: set<Block>,
    mem: map<nat, Byte>)

  function Index(s: State, c: Control): nat { if c in s.index then s.index[c] else 0 }

  function ByteAt(s: State, a: nat): Byte { if a in s.mem then s.mem[a] else 0 }

  function At(s: State, t: Thread): Pc { if t in s.pc then s.pc[t] else Idle }

  function Array(s: State, t: Thread): seq<Slot> { if t in s.arrays then s.arrays[t] else [] }

  predicate Init(s: State) {
    s.index == map[] && s.num == 0 && s.lock == Free && s.pc == map[] && s.arrays == map[] && s.blocks == {}
  }

  function Goto(s: State, t: Thread, p: Pc): State { s.(pc := s.pc[t := p]) }

  /** emutls_get_address_array: a longer array keeps its entries and is filled up with nulls. */
  function Grown(a: seq<Slot>, index: nat): (r: seq<Slot>)
    ensures index <= |r| && |a| <= |r| && r[..|a|] == a && forall k :: |a| <= k < |r| ==> r[k] == Null
  {
    NewSizeIs(index);
    if index <= |a| then a else a + seq(NewSize(index) - |a|, _ => Null)
  }

  /** malloc gives a block that overlaps none it gave before. */
  predicate Fresh(s: State, b: Block) { b.start > 0 && forall x :: x in s.blocks ==> Apart(x, b) }

  function Stored(s: State, t: Thread, i: nat, x: Slot): State
    requires 0 < i <= |Array(s, t)|
  {
    s.(arrays := s.arrays[t := Array(s, t)[i - 1 := x]])
  }

  /** The last part of __emutls_get_address. */
  ghost predicate Fetches(s: State, s': State, t: Thread, c: Control, i: nat) {
    0 < i <= |Array(s, t)| &&
    match Array(s, t)[i - 1]
    case Object(base, _) => s' == Goto(s, t, Returned(c, base))
    case Null =>
      if And(Align(c), Align(c) - 1) != 0 then s' == Goto(s, t, Aborted)
      else exists b: Block :: Allocates(s, s', t, c, i, b)
  }

  ghost predicate Allocates(s: State, s': State, t: Thread, c: Control, i: nat, b: Block)
    requires 0 < i <= |Array(s, t)|
  {
    && Fresh(s, b) && b.len == Extra(Align(c)) + c.size && Base(b, Align(c)) >= 0
    && s' == Goto(Stored(s, t, i, Object(Base(b, Align(c)), b)), t, Returned(c, Base(b, Align(c))))
            .(blocks := s.blocks + {b}, mem := s'.mem)
    && Loaded(s, s', b, Base(b, Align(c)), c)
  }

  /** The object gets its initial value; of the rest only bytes of the new block may change. */
  ghost predicate Loaded(s: State, s': State, b: Block, base: nat, c: Control) {
    && (forall x: nat :: x < c.size ==> ByteAt(s', base + x) == InitialByte(c, x))
    && (forall a: nat :: !(b.start <= a < b.start + b.len) ==> ByteAt(s', a) == ByteAt(s, a))
  }

  /** The program writes into the object whose address it was given. */
  predicate Writes(s: State, s': State, t: Thread, c: Control, x: nat, v: Byte) {
    && At(s, t).Returned? && At(s, t).c == c && x < c.size && s' == s.(mem := s.mem[At(s, t).address + x := v])
  }

  /** One step of thread `t`. */
  ghost predicate Steps(s: State, s': State, t: Thread) {
    match At(s, t)
    case Idle => exists c: Control :: s' == Goto(s, t, Loading(c))
    case Loading(c) => s' == Goto(s, t, if Index(s, c) != 0 then Indexed(c, Index(s, c)) else Locking(c))
    case Locking(c) => s.lock == Free && s' == Goto(s, t, Checking(c)).(lock := HeldBy(t))
    case Checking(c) =>
      if Index(s, c) != 0 then s' == Goto(s, t, Unlocking(c, Index(s, c)))
      else s' == Goto(s, t, Storing(c, s.num + 1)).(num := s.num + 1)
    case Storing(c, i) => s' == Goto(s, t, Unlocking(c, i)).(index := s.index[c := i])
    case Unlocking(c, i) => s' == Goto(s, t, Indexed(c, i)).(lock := Free)
    case Indexed(c, i) => s' == Goto(s, t, Sized(c, i)).(arrays := s.arrays[t := Grown(Array(s, t), i)])
    case Sized(c, i) => Fetches(s, s', t, c, i)
    case Returned(c, _) => s' == Goto(s, t, Idle) || exists x: nat, v: Byte :: Writes(s, s', t, c, x, v)
    case Aborted => s' == s
  }

  ghost predicate Next(s: State, s': State) { exists t: Thread :: Steps(s, s', t) }

  ghost predicate Run(r: seq<State>) {
    |r| > 0 && Init(r[0]) && forall k :: 0 < k < |r| ==> Next(r[k - 1], r[k])
  }

  // ----- what every step keeps -----

  ghost predicate IndicesOk(s: State) {
    && (forall c :: Index(s, c) <= s.num)
    && (forall c, d :: Index(s, c) == Index(s, d) != 0 ==> c == d)
  }

  ghost predicate PcOk(s: State, t: Thread) {
    match At(s, t)
    case Checking(c) => s.lock == HeldBy(t)
    case Storing(c, i) => s.lock == HeldBy(t) && i == s.num > 0 && Index(s, c) == 0 && forall d :: Index(s, d) != i
    case Unlocking(c, i) => s.lock == HeldBy(t) && Index(s, c) == i > 0
    case Indexed(c, i) => Index(s, c) == i > 0
    case Sized(c, i) => Index(s, c) == i > 0 && i <= |Array(s, t)|
    case Returned(c, a) => Index(s, c) > 0 && SlotAt(s, t, Index(s, c) - 1).Object? && SlotAt(s, t, Index(s, c) - 1).base == a
    case _ => true
  }

  function SlotAt(s: State, t: Thread, k: nat): Slot { if k < |Array(s, t)| then Array(s, t)[k] else Null }

  /** An entry is an object of the control that has its index, in a block of its own. */
  ghost predicate SlotOk(s: State, t: Thread, k: nat) {
    var x := SlotAt(s, t, k);
    x.Object? ==> x.block in s.blocks && exists c: Control :: Index(s, c) == k + 1 && ObjectOf(x, c)
  }

  predicate ObjectOf(x: Slot, c: Control)
    requires x.Object?
  {
    PowerOfTwo(Align(c)) && x.block.len == Extra(Align(c)) + c.size && x.base == Base(x.block, Align(c))
  }

  ghost predicate SlotsOk(s: State) {
    && (forall t: Thread, k: nat :: SlotOk(s, t, k))
    && (forall x, y :: x in s.blocks && y in s.blocks && x != y ==> Apart(x, y))
    && (forall t: Thread, k: nat, u: Thread, l: nat {:trigger SlotAt(s, t, k), SlotAt(s, u, l)} ::
          SlotAt(s, t, k).Object? && SlotAt(s, u, l).Object? && SlotAt(s, t, k).block == SlotAt(s, u, l).block ==>
          t == u && k == l)
  }

  ghost predicate Inv(s: State) { IndicesOk(s) && SlotsOk(s) && forall t: Thread :: PcOk(s, t) }

  /** A thread moves on and touches nothing else. */
  lemma MovesOn(s: State, t: Thread, p: Pc, l: Lock)
    requires Inv(s) && (l == s.lock || s.lock == Free || s.lock == HeldBy(t))
    requires PcOk(Goto(s, t, p).(lock := l), t)
    ensures Inv(Goto(s, t, p).(lock := l))
  {
    var s' := Goto(s, t, p).(lock := l);
    assert forall c :: Index(s', c) == Index(s, c);
    assert forall u, k :: SlotAt(s', u, k) == SlotAt(s, u, k);
    forall u: Thread ensures PcOk(s', u) { assert PcOk(s, u); }
    forall u: Thread, k: nat ensures SlotOk(s', u, k) { assert SlotOk(s, u, k); }
  }

  lemma Raises(s: State, t: Thread, c: Control)
    requires Inv(s) && At(s, t) == Checking(c) && Index(s, c) == 0
    ensures Inv(Goto(s, t, Storing(c, s.num + 1)).(num := s.num + 1))
  {
    var s' := Goto(s, t, Storing(c, s.num + 1)).(num := s.num + 1);
    assert PcOk(s, t);
    assert forall d :: Index(s', d) == Index(s, d);
    assert forall u, k :: SlotAt(s', u, k) == SlotAt(s, u, k);
    forall u: Thread ensures PcOk(s', u) { assert PcOk(s, u); }
    forall u: Thread, k: nat ensures SlotOk(s', u, k) { assert SlotOk(s, u, k); }
  }

  lemma Stores(s: State, t: Thread, c: Control, i: nat)
    requires Inv(s) && At(s, t) == Storing(c, i)
    ensures Inv(Goto(s, t, Unlocking(c, i)).(index := s.index[c := i]))
  {
    var s' := Goto(s, t, Unlocking(c, i)).(index := s.index[c := i]);
    assert PcOk(s, t);
    assert forall d :: Index(s', d) == if d == c then i else Index(s, d);
    assert forall u, k :: SlotAt(s', u, k) == SlotAt(s, u, k);
    forall u: Thread ensures PcOk(s', u) { assert PcOk(s, u); }
    forall u: Thread, k: nat ensures SlotOk(s', u, k) {
      assert SlotOk(s, u, k);
      if SlotAt(s, u, k).Object? {
        var d :| Index(s, d) == k + 1 && ObjectOf(SlotAt(s, u, k), d);
        assert Index(s', d) == k + 1;
      }
    }
  }

  lemma Grows(s: State, t: Thread, c: Control, i: nat)
    requires Inv(s) && At(s, t) == Indexed(c, i)
    ensures Inv(Goto(s, t, Sized(c, i)).(arrays := s.arrays[t := Grown(Array(s, t), i)]))
  {
    hide Grown;
    var s' := Goto(s, t, Sized(c, i)).(arrays := s.arrays[t := Grown(Array(s, t), i)]);
    assert PcOk(s, t);
    assert forall d :: Index(s', d) == Index(s, d);
    forall u: Thread, k: nat ensures SlotAt(s', u, k) == SlotAt(s, u, k) {
      if u == t && k < |Array(s, t)| { assert Grown(Array(s, t), i)[..|Array(s, t)|][k] == Array(s, t)[k]; }
    }
    forall u: Thread ensures PcOk(s', u) { assert PcOk(s, u); }
    forall u: Thread, k: nat ensures SlotOk(s', u, k) { assert SlotOk(s, u, k); }
  }

  lemma Allocated(s: State, s': State, t: Thread, c: Control, i: nat, b: Block)
    requires Inv(s) && At(s, t) == Sized(c, i) && 0 < i <= |Array(s, t)| && SlotAt(s, t, i - 1).Null?
    requires And(Align(c), Align(c) - 1) == 0 && Allocates(s, s', t, c, i, b)
    ensures Inv(s')
  {
    assert PcOk(s, t);
    PowerTest(Align(c));
    assert b !in s.blocks by { assert !Apart(b, b); }
    assert forall d :: Index(s', d) == Index(s, d);
    assert forall u: Thread, k: nat :: !(u == t && k == i - 1) ==> SlotAt(s', u, k) == SlotAt(s, u, k);
    assert SlotAt(s', t, i - 1) == Object(Base(b, Align(c)), b);
    AllocatedSlots(s, s', t, c, i, b);
    forall u: Thread ensures PcOk(s', u) {
      assert PcOk(s, u);
      if u != t && At(s, u).Returned? { assert SlotAt(s', u, Index(s, At(s, u).c) - 1) == SlotAt(s, u, Index(s, At(s, u).c) - 1); }
    }
  }

  lemma AllocatedSlots(s: State, s': State, t: Thread, c: Control, i: nat, b: Block)
    requires SlotsOk(s) && i > 0 && Index(s, c) == i && b !in s.blocks && Fresh(s, b) && s'.blocks == s.blocks + {b}
    requires PowerOfTwo(Align(c)) && b.len == Extra(Align(c)) + c.size && Base(b, Align(c)) >= 0
    requires forall d :: Index(s', d) == Index(s, d)
    requires forall u: Thread, k: nat :: !(u == t && k == i - 1) ==> SlotAt(s', u, k) == SlotAt(s, u, k)
    requires SlotAt(s', t, i - 1) == Object(Base(b, Align(c)), b)
    ensures SlotsOk(s')
  {
    hide PowerOfTwo, Base, Index, SlotAt;
    forall u: Thread, k: nat ensures SlotOk(s', u, k) {
      assert SlotOk(s, u, k);
      if u == t && k == i - 1 { assert Index(s', c) == k + 1 && ObjectOf(SlotAt(s', t, k), c); }
    }
    forall u: Thread, k: nat, v: Thread, l: nat
      | SlotAt(s', u, k).Object? && SlotAt(s', v, l).Object? && SlotAt(s', u, k).block == SlotAt(s', v, l).block
      ensures u == v && k == l
    {
      assert SlotOk(s, u, k) && SlotOk(s, v, l);
    }
  }

  lemma StepKeeps(s: State, s': State, t: Thread)
    requires Inv(s) && Steps(s, s', t)
    ensures Inv(s')
  {
    hide Inv, Grown;
    match At(s, t)
    case Idle =>
      var c: Control :| s' == Goto(s, t, Loading(c));
      Plain(s, t, Loading(c), s.lock);
    case Loading(c) => Plain(s, t, if Index(s, c) != 0 then Indexed(c, Index(s, c)) else Locking(c), s.lock);
    case Locking(c) => Plain(s, t, Checking(c), HeldBy(t));
    case Checking(c) =>
      if Index(s, c) != 0 { Plain(s, t, Unlocking(c, Index(s, c)), s.lock); } else { Raises(s, t, c); }
    case Storing(c, i) => Stores(s, t, c, i);
    case Unlocking(c, i) => Plain(s, t, Indexed(c, i), Free);
    case Indexed(c, i) => Grows(s, t, c, i);
    case Sized(c, i) => FetchKeeps(s, s', t, c, i);
    case Returned(c, _) => if s' == Goto(s, t, Idle) { Plain(s, t, Idle, s.lock); } else { Rewrites(s, s'.mem); }
    case Aborted =>
  }

  /** What memory holds does not matter. */
  lemma Rewrites(s: State, m: map<nat, Byte>)
    requires Inv(s)
    ensures Inv(s.(mem := m))
  {
    var s' := s.(mem := m);
    assert forall c :: Index(s', c) == Index(s, c);
    assert forall u, k :: SlotAt(s', u, k) == SlotAt(s, u, k);
    forall u: Thread ensures PcOk(s', u) { assert PcOk(s, u); }
    forall u: Thread, k: nat ensures SlotOk(s', u, k) { assert SlotOk(s, u, k); }
  }

  /** Steps that change at most the lock. */
  predicate PlainStep(s: State, t: Thread, p: Pc, l: Lock) {
    match p
    case Loading(_) => l == s.lock
    case Locking(_) => l == s.lock
    case Idle => l == s.lock
    case Checking(_) => s.lock == Free && l == HeldBy(t)
    case Unlocking(c, i) => At(s, t) == Checking(c) && Index(s, c) == i > 0 && l == s.lock
    case Indexed(c, i) =>
      || (Index(s, c) == i > 0 && l == s.lock)
      || (At(s, t) == Unlocking(c, i) && l == Free)
    case _ => false
  }

  lemma Plain(s: State, t: Thread, p: Pc, l: Lock)
    requires Inv(s)
    requires PlainStep(s, t, p, l)
    ensures Inv(Goto(s, t, p).(lock := l))
  {
    assert PcOk(s, t);
    MovesOn(s, t, p, l);
  }

  lemma FetchKeeps(s: State, s': State, t: Thread, c: Control, i: nat)
    requires Inv(s) && At(s, t) == Sized(c, i) && Fetches(s, s', t, c, i)
    ensures Inv(s')
  {
    assert PcOk(s, t);
    if Array(s, t)[i - 1].Object? {
      MovesOn(s, t, Returned(c, Array(s, t)[i - 1].base), s.lock);
    } else if And(Align(c), Align(c) - 1) != 0 {
      MovesOn(s, t, Aborted, s.lock);
    } else {
      hide Inv;
      var b: Block :| Allocates(s, s', t, c, i, b);
      Allocated(s, s', t, c, i, b);
    }
  }

  lemma {:induction false} RunKeeps(r: seq<State>, k: nat)
    requires Run(r) && k < |r|
    ensures Inv(r[k])
  {
    hide Inv, Init, Steps;
    if k == 0 {
      InitOk(r[0]);
    } else {
      RunKeeps(r, k - 1);
      assert Next(r[k - 1], r[k]);
      var t: Thread :| Steps(r[k - 1], r[k], t);
      StepKeeps(r[k - 1], r[k], t);
    }
  }

  lemma InitOk(s: State)
    requires Init(s)
    ensures Inv(s)
  {
  }

  // ----- whole runs -----

  /** What a thread has once seen does not change: indices and entries. */
  ghost predicate Stable(s: State, s': State) {
    && (forall c :: Index(s, c) != 0 ==> Index(s', c) == Index(s, c))
    && (forall u: Thread, k: nat :: SlotAt(s, u, k).Object? ==> SlotAt(s', u, k) == SlotAt(s, u, k))
  }

  lemma StepStable(s: State, s': State, t: Thread)
    requires Inv(s) && Steps(s, s', t)
    ensures Stable(s, s')
  {
    hide Grown, IndicesOk, SlotsOk, Stable, Allocates, And, Align, SlotAt;
    assert PcOk(s, t);
    match At(s, t)
    case Storing(c, i) => StoreStable(s, s', c, i);
    case Indexed(c, i) => GrowStable(s, s', t, i);
    case Sized(c, i) =>
      if Array(s, t)[i - 1].Null? && And(Align(c), Align(c) - 1) == 0 {
        var b: Block :| Allocates(s, s', t, c, i, b);
        AllocateStable(s, s', t, c, i, b);
      } else {
        SameStable(s, s');
      }
    case _ => SameStable(s, s');
  }

  lemma SameStable(s: State, s': State)
    requires s'.index == s.index && s'.arrays == s.arrays
    ensures Stable(s, s')
  {
  }

  lemma StoreStable(s: State, s': State, c: Control, i: nat)
    requires s'.index == s.index[c := i] && s'.arrays == s.arrays && Index(s, c) == 0
    ensures Stable(s, s')
  {
  }

  lemma GrowStable(s: State, s': State, t: Thread, i: nat)
    requires s'.index == s.index && s'.arrays == s.arrays[t := Grown(Array(s, t), i)]
    ensures Stable(s, s')
  {
    hide Grown;
    GrownKeeps(s, s', t, i);
  }

  lemma AllocateStable(s: State, s': State, t: Thread, c: Control, i: nat, b: Block)
    requires 0 < i <= |Array(s, t)| && Array(s, t)[i - 1].Null? && Allocates(s, s', t, c, i, b)
    ensures Stable(s, s')
  {
    hide Loaded, Fresh, Base, Align;
  }

  lemma GrownKeeps(s: State, s': State, t: Thread, i: nat)
    requires s'.arrays == s.arrays[t := Grown(Array(s, t), i)]
    ensures forall u: Thread, k: nat :: SlotAt(s', u, k) == SlotAt(s, u, k)
  {
    hide Grown;
    forall u: Thread, k: nat ensures SlotAt(s', u, k) == SlotAt(s, u, k) {
      if u == t && k < |Array(s, t)| { assert Grown(Array(s, t), i)[..|Array(s, t)|][k] == Array(s, t)[k]; }
    }
  }

  lemma {:induction false} RunStable(r: seq<State>, j: nat, k: nat)
    requires Run(r) && j <= k < |r|
    ensures Stable(r[j], r[k])
    decreases k
  {
    hide Inv, Init, Steps, Index, SlotAt;
    if j < k {
      RunStable(r, j, k - 1);
      RunKeeps(r, k - 1);
      assert Next(r[k - 1], r[k]);
      var t: Thread :| Steps(r[k - 1], r[k], t);
      StepStable(r[k - 1], r[k], t);
    }
  }

  /** Under every interleaving a control gets one index, which no other control has, and it never
      changes. */
  lemma OneIndex(r: seq<State>, j: nat, k: nat, c: Control, d: Control)
    requires Run(r) && j < |r| && k < |r| && Index(r[j], c) != 0 && Index(r[k], d) != 0
    ensures Index(r[j], c) == Index(r[k], d) <==> c == d
  {
    hide Init, Next, Index, SlotAt, SlotsOk, PcOk;
    var m := if j < k then k else j;
    RunStable(r, j, m);
    RunStable(r, k, m);
    RunKeeps(r, m);
    assert Index(r[m], c) == Index(r[j], c) && Index(r[m], d) == Index(r[k], d);
  }

  /** A returned address is that of an object of the control, which lies in its block. */
  lemma ReturnedObject(s: State, t: Thread, c: Control, a: nat) returns (x: Slot)
    requires Inv(s) && At(s, t) == Returned(c, a)
    ensures Index(s, c) > 0 && x == SlotAt(s, t, Index(s, c) - 1) && x.Object? && x.base == a && ObjectOf(x, c)
    ensures x.block in s.blocks && a % Align(c) == 0
    ensures x.block.start + WORD <= a && a + c.size <= x.block.start + x.block.len
  {
    hide Base, And;
    assert PcOk(s, t);
    var k := Index(s, c) - 1;
    x := SlotAt(s, t, k);
    assert SlotOk(s, t, k);
    var d :| Index(s, d) == k + 1 && ObjectOf(x, d);
    assert d == c;
    BaseInside(x.block, Align(c), c.size);
  }

  /** A thread always gets the same address for a control, whatever happened in between and
      however often its array grew. */
  lemma SameAddress(r: seq<State>, j: nat, k: nat, t: Thread, c: Control, a: nat, b: nat)
    requires Run(r) && j < |r| && k < |r| && At(r[j], t) == Returned(c, a) && At(r[k], t) == Returned(c, b)
    ensures a == b
  {
    hide Inv, Init, Next, Index, SlotAt, ObjectOf;
    RunKeeps(r, j);
    RunKeeps(r, k);
    var x := ReturnedObject(r[j], t, c, a);
    var y := ReturnedObject(r[k], t, c, b);
    var m := if j < k then k else j;
    RunStable(r, j, m);
    RunStable(r, k, m);
  }

  /** Objects of different threads or different controls share no byte, and each is aligned and
      inside its own allocation. */
  lemma SeparateObjects(r: seq<State>, j: nat, k: nat, t: Thread, u: Thread, c: Control, d: Control, a: nat, b: nat)
    requires Run(r) && j < |r| && k < |r| && At(r[j], t) == Returned(c, a) && At(r[k], u) == Returned(d, b)
    requires t != u || c != d
    ensures a % Align(c) == 0 && b % Align(d) == 0
    ensures a + c.size <= b || b + d.size <= a
  {
    hide Init, Next, Index, SlotAt, ObjectOf, IndicesOk, PcOk;
    RunKeeps(r, j);
    RunKeeps(r, k);
    var x := ReturnedObject(r[j], t, c, a);
    var y := ReturnedObject(r[k], u, d, b);
    var m := if j < k then k else j;
    RunStable(r, j, m);
    RunStable(r, k, m);
    RunKeeps(r, m);
    OneIndex(r, j, k, c, d);
    BlocksKept(r, j, m);
    BlocksKept(r, k, m);
    assert SlotAt(r[m], t, Index(r[j], c) - 1) == x && SlotAt(r[m], u, Index(r[k], d) - 1) == y;
    assert x.block != y.block;
  }

  lemma {:induction false} BlocksKept(r: seq<State>, j: nat, k: nat)
    requires Run(r) && j <= k < |r|
    ensures r[j].blocks <= r[k].blocks
    decreases k
  {
    hide Init, Grown;
    if j < k {
      BlocksKept(r, j, k - 1);
      assert Next(r[k - 1], r[k]);
    }
  }

  // ----- what a thread finds in its object -----

  /** The object of a control in a thread, if it has one. */
  function Entry(s: State, t: Thread, c: Control): Slot {
    if Index(s, c) == 0 then Null else SlotAt(s, t, Index(s, c) - 1)
  }

  lemma EntryInside(s: State, t: Thread, c: Control)
    requires Inv(s) && Entry(s, t, c).Object?
    ensures var x := Entry(s, t, c);
      x.block in s.blocks && x.block.start <= x.base && x.base + c.size <= x.block.start + x.block.len
  {
    hide Base, And;
    var x, k := Entry(s, t, c), Index(s, c) - 1;
    assert SlotOk(s, t, k);
    var d :| Index(s, d) == k + 1 && ObjectOf(x, d);
    assert d == c;
    BaseInside(x.block, Align(c), c.size);
  }

  lemma EntriesApart(s: State, t: Thread, c: Control, u: Thread, d: Control)
    requires Inv(s) && Entry(s, t, c).Object? && Entry(s, u, d).Object? && (t != u || c != d)
    ensures Apart(Entry(s, t, c).block, Entry(s, u, d).block)
  {
    hide SlotAt, Index, PcOk;
    EntryInside(s, t, c);
    EntryInside(s, u, d);
    assert Entry(s, t, c).block != Entry(s, u, d).block;
  }

  ghost predicate Wrote(s: State, s': State, t: Thread, c: Control, x: nat) { exists v: Byte :: Writes(s, s', t, c, x, v) }

  ghost function Written(s: State, s': State, t: Thread, c: Control, x: nat): Byte
    requires Wrote(s, s', t, c, x)
  {
    var v: Byte :| Writes(s, s', t, c, x, v);
    v
  }

  /** The last byte that thread `t` wrote at `x` in its object of `c`, or the initial one. */
  ghost function Value(r: seq<State>, k: nat, t: Thread, c: Control, x: nat): Byte
    requires k < |r|
  {
    if k == 0 then InitialByte(c, x)
    else if Wrote(r[k - 1], r[k], t, c, x) then Written(r[k - 1], r[k], t, c, x)
    else Value(r, k - 1, t, c, x)
  }

  /** The byte is in the object, or what the object will start with if there is none. */
  predicate Kept(s: State, t: Thread, c: Control, x: nat, w: Byte) {
    match Entry(s, t, c)
    case Null => w == InitialByte(c, x)
    case Object(base, _) => w == ByteAt(s, base + x)
  }

  lemma WriteKeeps(s: State, s': State, u: Thread, d: Control, y: nat, v: Byte, t: Thread, c: Control, x: nat, w: Byte)
    requires Inv(s) && Writes(s, s', u, d, y, v) && x < c.size && Kept(s, t, c, x, w)
    requires t != u || c != d || x != y
    ensures Kept(s', t, c, x, w)
  {
    hide SlotAt, Index, SlotsOk, IndicesOk;
    assert PcOk(s, u);
    assert Index(s', c) == Index(s, c) by { SameParts(s, s'); }
    assert Entry(s', t, c) == Entry(s, t, c) by { SameParts(s, s'); }
    if Entry(s, t, c).Object? {
      EntryInside(s, t, c);
      EntryInside(s, u, d);
      if t != u || c != d { EntriesApart(s, t, c, u, d); }
    }
  }

  lemma SameParts(s: State, s': State)
    requires s'.index == s.index && s'.arrays == s.arrays
    ensures forall t: Thread, c: Control :: Entry(s', t, c) == Entry(s, t, c) && Index(s', c) == Index(s, c)
  {
  }

  lemma AllocateKeeps(s: State, s': State, u: Thread, d: Control, i: nat, b: Block, t: Thread, c: Control, x: nat, w: Byte)
    requires Inv(s) && At(s, u) == Sized(d, i) && 0 < i <= |Array(s, u)| && Array(s, u)[i - 1].Null?
    requires Allocates(s, s', u, d, i, b) && x < c.size && Kept(s, t, c, x, w)
    ensures Kept(s', t, c, x, w)
  {
    hide SlotsOk, Base;
    assert PcOk(s, u);
    assert Index(s', c) == Index(s, c);
    if t == u && c == d {
      assert Entry(s', t, c) == Object(Base(b, Align(c)), b);
    } else {
      assert Entry(s', t, c) == Entry(s, t, c);
      if Entry(s, t, c).Object? { EntryInside(s, t, c); }
    }
  }

  /** An index that is new has no object yet, in any thread. */
  lemma StoreKeeps(s: State, s': State, u: Thread, d: Control, i: nat, t: Thread, c: Control, x: nat, w: Byte)
    requires Inv(s) && At(s, u) == Storing(d, i) && s' == Goto(s, u, Unlocking(d, i)).(index := s.index[d := i])
    requires Kept(s, t, c, x, w)
    ensures Kept(s', t, c, x, w)
  {
    assert PcOk(s, u);
    assert SlotOk(s, t, i - 1);
    assert Index(s', c) == if c == d then i else Index(s, c);
    assert forall k: nat :: SlotAt(s', t, k) == SlotAt(s, t, k);
  }

  /** No step changes the byte but a write of the thread itself to it. */
  lemma StepByte(s: State, s': State, u: Thread, t: Thread, c: Control, x: nat, w: Byte)
    requires Inv(s) && Steps(s, s', u) && x < c.size && Kept(s, t, c, x, w)
    requires !Wrote(s, s', t, c, x)
    ensures Kept(s', t, c, x, w)
  {
    hide Inv, Grown, Kept, Allocates, And, Align, SlotAt;
    match At(s, u)
    case Storing(d, i) => StoreKeeps(s, s', u, d, i, t, c, x, w);
    case Indexed(d, i) => GrowKeeps(s, s', u, i, t, c, x, w);
    case Sized(d, i) =>
      if Array(s, u)[i - 1].Null? && And(Align(d), Align(d) - 1) == 0 {
        var b: Block :| Allocates(s, s', u, d, i, b);
        AllocateKeeps(s, s', u, d, i, b, t, c, x, w);
      } else {
        PlainKeeps(s, s', t, c, x, w);
      }
    case Returned(d, _) =>
      if s' == Goto(s, u, Idle) {
        PlainKeeps(s, s', t, c, x, w);
      } else {
        var y: nat, v: Byte :| Writes(s, s', u, d, y, v);
        WriteKeeps(s, s', u, d, y, v, t, c, x, w);
      }
    case _ => PlainKeeps(s, s', t, c, x, w);
  }

  lemma PlainKeeps(s: State, s': State, t: Thread, c: Control, x: nat, w: Byte)
    requires s'.index == s.index && s'.arrays == s.arrays && s'.mem == s.mem && Kept(s, t, c, x, w)
    ensures Kept(s', t, c, x, w)
  {
    hide Entry;
    SameParts(s, s');
  }

  lemma GrowKeeps(s: State, s': State, u: Thread, i: nat, t: Thread, c: Control, x: nat, w: Byte)
    requires s'.arrays == s.arrays[u := Grown(Array(s, u), i)] && s'.index == s.index && s'.mem == s.mem
    requires Kept(s, t, c, x, w)
    ensures Kept(s', t, c, x, w)
  {
    hide Grown, SlotAt;
    GrownKeeps(s, s', u, i);
    assert Index(s', c) == Index(s, c);
  }

  lemma {:induction false} RunByte(r: seq<State>, k: nat, t: Thread, c: Control, x: nat)
    requires Run(r) && k < |r| && x < c.size
    ensures Kept(r[k], t, c, x, Value(r, k, t, c, x))
  {
    hide Inv, Steps;
    if k > 0 {
      RunByte(r, k - 1, t, c, x);
      RunKeeps(r, k - 1);
      assert Next(r[k - 1], r[k]);
      var u: Thread :| Steps(r[k - 1], r[k], u);
      if Wrote(r[k - 1], r[k], t, c, x) {
        WrittenKept(r[k - 1], r[k], t, c, x);
      } else {
        StepByte(r[k - 1], r[k], u, t, c, x, Value(r, k - 1, t, c, x));
      }
    }
  }

  /** What was just written is there. */
  lemma WrittenKept(s: State, s': State, t: Thread, c: Control, x: nat)
    requires Inv(s) && Wrote(s, s', t, c, x)
    ensures Kept(s', t, c, x, Written(s, s', t, c, x))
  {
    hide SlotsOk, IndicesOk;
    assert PcOk(s, t);
    SameParts(s, s');
  }

  /** In every run a thread finds in its object what it wrote there last, and before that the
      initial value, whatever other threads do. */
  lemma OwnValue(r: seq<State>, k: nat, t: Thread, c: Control, a: nat, x: nat)
    requires Run(r) && k < |r| && At(r[k], t) == Returned(c, a) && x < c.size
    ensures ByteAt(r[k], a + x) == Value(r, k, t, c, x)
  {
    hide Value, SlotsOk, IndicesOk;
    RunKeeps(r, k);
    RunByte(r, k, t, c, x);
    assert PcOk(r[k], t);
  }

  /** Before its first write a thread finds the initial value that the control names, or zeros. */
  lemma FirstValue(r: seq<State>, k: nat, t: Thread, c: Control, a: nat, x: nat)
    requires Run(r) && k < |r| && At(r[k], t) == Returned(c, a) && x < c.size
    requires forall j :: 0 < j <= k ==> !Wrote(r[j - 1], r[j], t, c, x)
    ensures |c.value| == c.size ==> ByteAt(r[k], a + x) == c.value[x]
    ensures c.value == [] ==> ByteAt(r[k], a + x) == 0
  {
    hide Run, At, ByteAt, Wrote;
    OwnValue(r, k, t, c, a, x);
    NotWritten(r, 0, k, t, c, x);
  }

  /** After a write it finds that byte until its next write to the same place. */
  lemma LastValue(r: seq<State>, j: nat, k: nat, t: Thread, c: Control, a: nat, x: nat, v: Byte)
    requires Run(r) && j < k < |r| && At(r[k], t) == Returned(c, a) && Writes(r[j], r[j + 1], t, c, x, v)
    requires forall i :: j + 1 < i <= k ==> !Wrote(r[i - 1], r[i], t, c, x)
    ensures ByteAt(r[k], a + x) == v
  {
    OnlyWritten(r[j], r[j + 1], t, c, x, v);
    hide Run, At, ByteAt, Wrote;
    OwnValue(r, k, t, c, a, x);
    NotWritten(r, j + 1, k, t, c, x);
  }

  lemma OnlyWritten(s: State, s': State, t: Thread, c: Control, x: nat, v: Byte)
    requires Writes(s, s', t, c, x, v)
    ensures x < c.size && Wrote(s, s', t, c, x) && Written(s, s', t, c, x) == v
  {
    var a, w := At(s, t).address + x, Written(s, s', t, c, x);
    assert s'.mem == s.mem[a := v] && s'.mem == s.mem[a := w];
    assert s'.mem[a] == v && s'.mem[a] == w;
  }

  lemma {:induction false} NotWritten(r: seq<State>, j: nat, k: nat, t: Thread, c: Control, x: nat)
    requires j <= k < |r| && forall i :: j < i <= k ==> !Wrote(r[i - 1], r[i], t, c, x)
    ensures Value(r, k, t, c, x) == Value(r, j, t, c, x)
    decreases k
  {
    hide Wrote;
    if j < k { NotWritten(r, j, k - 1, t, c, x); }
  }

  // ----- how a thread may end, and that threads go on -----

  /** A thread is given up only in a call for a control whose alignment is not a power of two. */
  lemma {:induction false} AbortedWhy(r: seq<State>, k: nat, t: Thread) returns (j: nat, c: Control, i: nat)
    requires Run(r) && k < |r| && At(r[k], t) == Aborted
    ensures j < k && At(r[j], t) == Sized(c, i) && !PowerOfTwo(Align(c))
    decreases k
  {
    hide Align, PowerOfTwo, Steps;
    assert k > 0;
    assert Next(r[k - 1], r[k]);
    if At(r[k - 1], t) == Aborted {
      j, c, i := AbortedWhy(r, k - 1, t);
    } else {
      var u: Thread :| Steps(r[k - 1], r[k], u);
      c, i := AbortStep(r[k - 1], r[k], u, t);
      j := k - 1;
    }
  }

  /** Fetching moves one thread on and leaves the mutex alone. */
  lemma FetchEffect(s: State, s': State, t: Thread, c: Control, i: nat)
    requires Fetches(s, s', t, c, i)
    ensures s'.lock == s.lock && (forall u: Thread :: u != t ==> At(s', u) == At(s, u))
    ensures At(s', t).Returned? || (At(s', t) == Aborted && !PowerOfTwo(Align(c)))
  {
    hide Base, Loaded, Fresh, Align, And, PowerOfTwo;
    PowerTest(Align(c));
  }

  lemma AbortStep(s: State, s': State, u: Thread, t: Thread) returns (c: Control, i: nat)
    requires Steps(s, s', u) && At(s, t) != Aborted && At(s', t) == Aborted
    ensures At(s, t) == Sized(c, i) && !PowerOfTwo(Align(c))
  {
    hide Grown, Fetches, PowerOfTwo, Align, And;
    if At(s, u).Sized? { FetchEffect(s, s', u, At(s, u).c, At(s, u).i); }
    assert u == t && At(s, t).Sized?;
    c, i := At(s, t).c, At(s, t).i;
  }

  /** There is always memory beyond all blocks. */
  lemma {:induction false} SomeFresh(blocks: set<Block>, len: nat) returns (b: Block)
    ensures b.start > 0 && b.len == len && forall x :: x in blocks ==> x.start + x.len <= b.start
    decreases |blocks|
  {
    if blocks == {} {
      b := Block(1, len);
    } else {
      var y :| y in blocks;
      var d := SomeFresh(blocks - {y}, len);
      b := Block(d.start + y.start + y.len, len);
    }
  }

  /** Bytes from `a` on, as the object wants them. */
  function Copied(m: map<nat, Byte>, a: nat, c: Control, n: nat): map<nat, Byte> {
    if n == 0 then m else Copied(m, a, c, n - 1)[a + n - 1 := InitialByte(c, n - 1)]
  }

  lemma {:induction false} CopiedIs(s: State, s': State, a: nat, c: Control, n: nat)
    requires s'.mem == Copied(s.mem, a, c, n)
    ensures forall x: nat :: x < n ==> ByteAt(s', a + x) == InitialByte(c, x)
    ensures forall y: nat :: !(a <= y < a + n) ==> ByteAt(s', y) == ByteAt(s, y)
    decreases n
  {
    if n > 0 { CopiedIs(s, s'.(mem := Copied(s.mem, a, c, n - 1)), a, c, n - 1); }
  }

  lemma CanAllocate(s: State, t: Thread, c: Control, i: nat) returns (s': State)
    requires 0 < i <= |Array(s, t)| && Array(s, t)[i - 1].Null? && And(Align(c), Align(c) - 1) == 0
    ensures Fetches(s, s', t, c, i)
  {
    hide And, PowerOfTwo;
    PowerTest(Align(c));
    var b := SomeFresh(s.blocks, Extra(Align(c)) + c.size);
    BaseInside(b, Align(c), c.size);
    var base: nat := Base(b, Align(c));
    hide Base, Align;
    s' := Goto(Stored(s, t, i, Object(base, b)), t, Returned(c, base)).(blocks := s.blocks + {b},
                                                                        mem := Copied(s.mem, base, c, c.size));
    CopiedIs(s, s', base, c, c.size);
    assert Loaded(s, s', b, base, c);
    assert Allocates(s, s', t, c, i, b);
  }

  /** A thread that does not wait for the mutex can always take a step. */
  lemma Enabled(s: State, t: Thread) returns (s': State)
    requires Inv(s) && (At(s, t).Locking? ==> s.lock == Free)
    ensures Steps(s, s', t)
  {
    hide Grown, IndicesOk, SlotsOk, Allocates, Fetches, Align, And;
    assert PcOk(s, t);
    match At(s, t)
    case Idle => s' := Goto(s, t, Loading(Control(0, 0, 0, [])));
    case Loading(c) => s' := Goto(s, t, if Index(s, c) != 0 then Indexed(c, Index(s, c)) else Locking(c));
    case Locking(c) => s' := Goto(s, t, Checking(c)).(lock := HeldBy(t));
    case Checking(c) =>
      s' := if Index(s, c) != 0 then Goto(s, t, Unlocking(c, Index(s, c)))
            else Goto(s, t, Storing(c, s.num + 1)).(num := s.num + 1);
    case Storing(c, i) => s' := Goto(s, t, Unlocking(c, i)).(index := s.index[c := i]);
    case Unlocking(c, i) => s' := Goto(s, t, Indexed(c, i)).(lock := Free);
    case Indexed(c, i) => s' := Goto(s, t, Sized(c, i)).(arrays := s.arrays[t := Grown(Array(s, t), i)]);
    case Sized(c, i) => s' := CanFetch(s, t, c, i);
    case Returned(_, _) => s' := Goto(s, t, Idle);
    case Aborted => s' := s;
  }

  lemma CanFetch(s: State, t: Thread, c: Control, i: nat) returns (s': State)
    requires 0 < i <= |Array(s, t)|
    ensures Fetches(s, s', t, c, i)
  {
    if Array(s, t)[i - 1].Object? {
      s' := Goto(s, t, Returned(c, Array(s, t)[i - 1].base));
    } else if And(Align(c), Align(c) - 1) != 0 {
      s' := Goto(s, t, Aborted);
    } else {
      s' := CanAllocate(s, t, c, i);
    }
  }

  /** There is no deadlock: in every state of every run a thread can take a step, or it waits for
      one that holds the mutex and can. */
  lemma NoDeadlock(r: seq<State>, k: nat, t: Thread)
    requires Run(r) && k < |r|
    ensures var s := r[k];
      || (exists s' :: Steps(s, s', t))
      || (s.lock.HeldBy? && HasMutex(s, s.lock.t) && exists s' :: Steps(s, s', s.lock.t))
  {
    hide Inv, Steps;
    RunKeeps(r, k);
    var s := r[k];
    if At(s, t).Locking? && s.lock != Free {
      RunHolder(r, k);
      var s' := Enabled(s, s.lock.t);
    } else {
      var s' := Enabled(s, t);
    }
  }

  predicate HasMutex(s: State, t: Thread) { At(s, t).Checking? || At(s, t).Storing? || At(s, t).Unlocking? }

  /** The mutex is held only by a thread between locking and unlocking. */
  lemma {:induction false} RunHolder(r: seq<State>, k: nat)
    requires Run(r) && k < |r| && r[k].lock.HeldBy?
    ensures HasMutex(r[k], r[k].lock.t)
    decreases k
  {
    hide Inv;
    assert k > 0;
    assert Next(r[k - 1], r[k]);
    var u: Thread :| Steps(r[k - 1], r[k], u);
    if r[k - 1].lock.HeldBy? { RunHolder(r, k - 1); }
    RunKeeps(r, k - 1);
    HolderStep(r[k - 1], r[k], u);
  }

  lemma HolderStep(s: State, s': State, u: Thread)
    requires Inv(s) && Steps(s, s', u) && (s.lock.HeldBy? ==> HasMutex(s, s.lock.t)) && s'.lock.HeldBy?
    ensures HasMutex(s', s'.lock.t)
  {
    hide IndicesOk, SlotsOk, Grown, Fetches, And, Align;
    assert PcOk(s, u);
    if At(s, u).Sized? { FetchEffect(s, s', u, At(s, u).c, At(s, u).i); }
  }
}
