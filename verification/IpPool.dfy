/** The address pool of the virtual switch: a cursor that rewinds on release. */
module IpPool {
  import opened Optional
  import opened Bits

  const U32: nat := 0x1_0000_0000

  type u32 = x: nat | x < U32

  /** `1u32.checked_shl(32 - mask).unwrap_or(0)`, both subtractions saturating. */
  function Size(mask: nat): u32 {
    var shift := if mask <= 32 then 32 - mask else 0;
    if shift < 32 then ShiftOne(shift) else 0
  }

  function ShiftOne(shift: nat): (r: u32)
    requires shift < 32
    ensures 1 <= r <= 0x8000_0000
  {
    Pow2Monotone(shift, 31);
    HalfRange();
    Pow2(shift)
  }

  lemma HalfRange()
    ensures Pow2(31) == 0x8000_0000
  {
    assert Pow2(8) == 0x100 && Pow2(16) == 0x1_0000 && Pow2(24) == 0x100_0000;
  }

  /** The broadcast address: `base.saturating_add(size).saturating_sub(1)`. */
  function Max(base: u32, mask: nat): u32 {
    var sum := if base + Size(mask) < U32 then base + Size(mask) else U32 - 1;
    if sum == 0 then 0 else sum - 1
  }

  /** The addresses the pool may hand out: past the gateway, before broadcast. */
  predicate Usable(base: u32, mask: nat, a: nat) {
    base + 2 <= a < Max(base, mask)
  }

  /** The size of a subnet: 2^(32 - mask) addresses, one for a mask above 32, and none counted for mask 0. */
  lemma {:induction false} SizeSays(mask: nat)
    ensures Size(mask) == if mask == 0 then 0 else if mask <= 32 then Pow2(32 - mask) else 1
  {
    assert Pow2(0) == 1;
  }

  /** From base + 2 up to but excluding the last address of the subnet, or of all addresses where it goes beyond. */
  lemma {:induction false} UsableSays(base: u32, mask: nat, a: nat)
    requires 1 <= mask <= 32
    ensures base + Pow2(32 - mask) <= 0xFFFF_FFFF ==>
      (Usable(base, mask, a) <==> base + 2 <= a < base + Pow2(32 - mask) - 1)
    ensures base + Pow2(32 - mask) >= 0x1_0000_0000 ==> (Usable(base, mask, a) <==> base + 2 <= a < 0xFFFF_FFFE)
  {
    SizeSays(mask);
    assert base + Pow2(32 - mask) > 0;
  }

  datatype Pool = Pool(base: u32, mask: nat, used: set<u32>, next: u32)

  /** Only usable addresses are used, and everything before the cursor is. */
  predicate Inv(p: Pool) {
    && p.base + 2 <= p.next && (p.next <= p.base + 2 || p.next <= Max(p.base, p.mask))
    && (forall a :: a in p.used ==> Usable(p.base, p.mask, a))
    && (forall a :: p.base + 2 <= a < p.next ==> a in p.used)
  }

  /** The scanning loop: the cursor left, and the address it stopped at. */
  function Scan(used: set<u32>, next: u32, max: u32): (u32, Option<u32>)
    decreases max - next
  {
    if next >= max then (next, None)
    else if next in used then Scan(used, next + 1, max)
    else (next + 1, Some(next))
  }

  function AllocateIn(p: Pool): (Pool, Option<u32>) {
    var (n, r) := Scan(p.used, p.next, Max(p.base, p.mask));
    (p.(next := n, used := if r.Some? then p.used + {r.value} else p.used), r)
  }

  function ReleaseIn(p: Pool, ip: u32): Pool {
    p.(used := p.used - {ip}, next := if ip in p.used && ip < p.next then ip else p.next)
  }

  /** A new pool; `base + 2` wraps at 2^32. */
  function Fresh(base: u32, mask: nat): Pool {
    Pool(base, mask, {}, (base + 2) % U32)
  }

  predicate Available(p: Pool) {
    |p.used| < (if Size(p.mask) >= 3 then Size(p.mask) - 3 else 0)
  }

  lemma {:induction false} ScanLeast(used: set<u32>, next: u32, max: u32)
    requires next <= max
    ensures var (n, r) := Scan(used, next, max);
      && next <= n <= max
      && (r == None ==> n == max && forall a :: next <= a < max ==> a in used)
      && (r.Some? ==> next <= r.value < max && n == r.value + 1 && r.value !in used
                      && forall a :: next <= a < r.value ==> a in used)
    decreases max - next
  {
    if next < max && next in used {
      ScanLeast(used, next + 1, max);
    }
  }

  /** `allocate` returns the least unused address of the subnet, or None when all are used. */
  lemma AllocateLeast(p: Pool)
    requires Inv(p)
    ensures var (q, r) := AllocateIn(p);
      && Inv(q)
      && (r == None ==> q.used == p.used && forall a: nat :: Usable(p.base, p.mask, a) ==> a in p.used)
      && (r.Some? ==> Usable(p.base, p.mask, r.value) && r.value !in p.used && q.used == p.used + {r.value}
                      && forall a: nat :: Usable(p.base, p.mask, a) && a < r.value ==> a in p.used)
  {
    if p.next < Max(p.base, p.mask) {
      ScanLeast(p.used, p.next, Max(p.base, p.mask));
    }
  }

  /** `release` forgets the address, whatever it is, and keeps it the next candidate if it was in use. */
  lemma ReleaseKeeps(p: Pool, ip: u32)
    requires Inv(p)
    ensures Inv(ReleaseIn(p, ip)) && ReleaseIn(p, ip).used == p.used - {ip}
  {
  }

  // ----- runs

  datatype Op = Take | Give(ip: u32)

  function Exec(p: Pool, ops: seq<Op>): Pool {
    if ops == [] then p
    else
      var q := Exec(p, ops[..|ops| - 1]);
      match ops[|ops| - 1]
      case Take => AllocateIn(q).0
      case Give(ip) => ReleaseIn(q, ip)
  }

  lemma {:induction false} ExecInv(p: Pool, ops: seq<Op>)
    requires Inv(p)
    ensures Inv(Exec(p, ops)) && Exec(p, ops).base == p.base && Exec(p, ops).mask == p.mask
  {
    if ops != [] {
      ExecInv(p, ops[..|ops| - 1]);
      var q := Exec(p, ops[..|ops| - 1]);
      AllocateLeast(q);
      if ops[|ops| - 1].Give? { ReleaseKeeps(q, ops[|ops| - 1].ip); }
    }
  }

  // ----- `available` by counting

  function Interval(lo: nat, hi: nat): (s: set<nat>)
    ensures forall a :: a in s <==> lo <= a < hi
    ensures lo <= hi ==> |s| == hi - lo
    decreases hi
  {
    if hi <= lo then {} else Interval(lo, hi - 1) + {hi - 1}
  }

  lemma SubsetSize(a: set<nat>, b: set<nat>)
    requires a <= b
    ensures |a| <= |b| && (|a| == |b| ==> a == b)
  {
    assert |b - a| == |b| - |a| by { assert b == a + (b - a); }
    if |a| == |b| { assert b - a == {}; }
  }

  /** How many addresses the pool can hand out. */
  function Capacity(base: u32, mask: nat): nat {
    if base + 2 <= Max(base, mask) then Max(base, mask) - (base + 2) else 0
  }

  /** The pool is exhausted exactly when it has handed out its capacity. */
  lemma ExhaustedIffFull(p: Pool)
    requires Inv(p)
    ensures |p.used| <= Capacity(p.base, p.mask)
    ensures AllocateIn(p).1 == None <==> |p.used| == Capacity(p.base, p.mask)
  {
    AllocateLeast(p);
    var lo := p.base + 2;
    var hi := lo + Capacity(p.base, p.mask);
    var all := Interval(lo, hi);
    var used: set<nat> := p.used;
    assert used <= all;
    SubsetSize(used, all);
    var r := AllocateIn(p).1;
    if r == None {
      assert used == all;
    } else {
      assert r.value in all;
    }
  }

  /** The subnet ends below 2^32, or is too small to hold any address. */
  predicate EndFits(base: u32, mask: nat) {
    Size(mask) <= 3 || base + Size(mask) < U32
  }

  lemma AvailableExact(p: Pool)
    requires Inv(p) && EndFits(p.base, p.mask)
    ensures Available(p) <==> AllocateIn(p).1.Some?
  {
    ExhaustedIffFull(p);
  }

  lemma OneMore(q: Pool)
    requires Inv(q) && |q.used| < Capacity(q.base, q.mask)
    ensures |AllocateIn(q).0.used| == |q.used| + 1
  {
    ExhaustedIffFull(q);
    AllocateLeast(q);
  }

  function Drain(n: nat): seq<Op> {
    seq(n, _ => Take)
  }

  lemma {:induction false} DrainOne(p: Pool, n: nat)
    ensures Exec(p, Drain(n + 1)) == AllocateIn(Exec(p, Drain(n))).0
  {
    assert Drain(n + 1)[..n] == Drain(n);
  }

  lemma {:induction false} DrainCount(p: Pool, n: nat)
    requires Inv(p) && p.used == {} && n <= Capacity(p.base, p.mask)
    ensures |Exec(p, Drain(n)).used| == n
  {
    if n > 0 {
      DrainCount(p, n - 1);
      DrainOne(p, n - 1);
      ExecInv(p, Drain(n - 1));
      OneMore(Exec(p, Drain(n - 1)));
    }
  }

  // ----- the wrapped cursor

  lemma FreshInv(base: u32, mask: nat)
    requires base + 2 < U32
    ensures Inv(Fresh(base, mask))
  {
    SmallMod(base + 2, U32);
  }

  /** With everything used behind the cursor, the cursor is handed out. */
  lemma TakeCursor(q: Pool)
    requires q.next < Max(q.base, q.mask) && forall a :: a in q.used ==> a < q.next
    ensures AllocateIn(q) == (q.(next := q.next + 1, used := q.used + {q.next}), Some(q.next))
    ensures |q.used + {q.next}| == |q.used| + 1
  {
  }

  lemma MaxBound(base: u32, mask: nat)
    requires base + 2 >= U32
    ensures Max(base, mask) >= U32 - 3
  {
  }

  /** A pool that has handed out n addresses from 0 or 1 on and nothing else. */
  predicate Wrapped(q: Pool, base: u32, mask: nat, n: nat) {
    && q.base == base && q.mask == mask && q.next + U32 == base + 2 + n && |q.used| == n
    && forall a :: a in q.used ==> a < q.next
  }

  lemma WrappedStep(q: Pool, base: u32, mask: nat, n: nat)
    requires base + 2 >= U32 && n < U32 - 5 && Wrapped(q, base, mask, n)
    ensures AllocateIn(q).1 == Some(base + 2 - U32 + n) && Wrapped(AllocateIn(q).0, base, mask, n + 1)
  {
    MaxBound(base, mask);
    TakeCursor(q);
  }

  /** Where `base + 2` wraps, a new pool hands out one address after the other from 0 or 1 on. */
  lemma {:induction false} WrappedDrain(base: u32, mask: nat, n: nat)
    requires base + 2 >= U32 && n < U32 - 5
    ensures Wrapped(Exec(Fresh(base, mask), Drain(n)), base, mask, n)
    ensures AllocateIn(Exec(Fresh(base, mask), Drain(n))).1 == Some(base + 2 - U32 + n)
  {
    var i := 0;
    assert Wrapped(Fresh(base, mask), base, mask, 0) by { assert (base + 2) % U32 == base + 2 - U32; }
    assert Drain(0) == [];
    while i < n
      invariant i <= n && Wrapped(Exec(Fresh(base, mask), Drain(i)), base, mask, i)
    {
      WrappedStep(Exec(Fresh(base, mask), Drain(i)), base, mask, i);
      DrainOne(Fresh(base, mask), i);
      i := i + 1;
    }
    WrappedStep(Exec(Fresh(base, mask), Drain(n)), base, mask, n);
  }

  /** Exactly when `base + 2` fits in 32 bits do all runs of a new pool hand out addresses of its subnet only. */
  lemma UsableIff(base: u32, mask: nat)
    ensures base + 2 < U32
       <==> forall ops :: var r := AllocateIn(Exec(Fresh(base, mask), ops)).1; r.Some? ==> Usable(base, mask, r.value)
  {
    if base + 2 < U32 {
      FreshInv(base, mask);
      forall ops
        ensures var r := AllocateIn(Exec(Fresh(base, mask), ops)).1; r.Some? ==> Usable(base, mask, r.value)
      {
        ExecInv(Fresh(base, mask), ops);
        AllocateLeast(Exec(Fresh(base, mask), ops));
      }
    } else {
      WrappedDrain(base, mask, 0);
    }
  }

  /** 255.255.255.254/31 begins with address 0. */
  lemma WrappedFirst()
    ensures AllocateIn(Fresh(0xFFFF_FFFE, 31)).1 == Some(0) && !Usable(0xFFFF_FFFE, 31, 0)
  {
    WrappedDrain(0xFFFF_FFFE, 31, 0);
  }

  // ----- when `available` tells the truth

  /** Whether `available` tells if `allocate` would succeed. */
  predicate Truthful(p: Pool) {
    Available(p) <==> AllocateIn(p).1.Some?
  }

  /** How many addresses to take from a new pool to make `available` wrong, where it can be. */
  function Misleading(base: u32, mask: nat): nat {
    if base + 2 < U32 then Capacity(base, mask) else if Size(mask) <= 3 then 0 else Size(mask) - 3
  }

  /**
   * A pool whose end does not fit, drained, claims an address; one whose cursor wrapped denies the addresses
   * it still has after as many as its size allows.
   */
  lemma FalselyAvailable(base: u32, mask: nat)
    requires base + 2 >= U32 || !EndFits(base, mask)
    ensures var q := Exec(Fresh(base, mask), Drain(Misleading(base, mask)));
      !Truthful(q) && (Available(q) <==> base + 2 < U32)
  {
    var p, n := Fresh(base, mask), Misleading(base, mask);
    if base + 2 < U32 {
      FreshInv(base, mask);
      DrainCount(p, n);
      ExecInv(p, Drain(n));
      ExhaustedIffFull(Exec(p, Drain(n)));
    } else {
      WrappedDrain(base, mask, n);
    }
  }

  /** `available` tells the truth after every run of a new pool exactly when neither end of the subnet overflows. */
  lemma {:induction false} AvailableExactIff(base: u32, mask: nat)
    ensures base + 2 < U32 && EndFits(base, mask) <==> forall ops :: Truthful(Exec(Fresh(base, mask), ops))
  {
    if base + 2 < U32 && EndFits(base, mask) {
      FreshInv(base, mask);
      forall ops ensures Truthful(Exec(Fresh(base, mask), ops)) {
        ExecInv(Fresh(base, mask), ops);
        AvailableExact(Exec(Fresh(base, mask), ops));
      }
    } else {
      FalselyAvailable(base, mask);
    }
  }

  /** The pool of 255.255.255.0/24: after 252 addresses it has none left and claims one. */
  lemma LastSubnet(n: nat)
    requires n == 252
    ensures var q := Exec(Fresh(0xFFFF_FF00, 24), Drain(n)); Available(q) && AllocateIn(q).1 == None
  {
    assert Pow2(8) == 0x100;
    FalselyAvailable(0xFFFF_FF00, 24);
  }

  /** The pool of 255.255.255.254/31: its end fits, it claims to have none, and hands out address 0. */
  lemma LastPair()
    ensures EndFits(0xFFFF_FFFE, 31)
    ensures !Available(Fresh(0xFFFF_FFFE, 31)) && AllocateIn(Fresh(0xFFFF_FFFE, 31)).1 == Some(0)
  {
    assert Pow2(1) == 2;
    WrappedDrain(0xFFFF_FFFE, 31, 0);
  }

  // ----- the object

  class IpPool {
    const base: u32
    const mask: nat
    var used: set<u32>
    var next: u32

    ghost function Model(): Pool
      reads this
    {
      Pool(base, mask, used, next)
    }

    ghost predicate Valid()
      reads this
    {
      Inv(Model())
    }

    /** Valid unless `base + 2` wraps. */
    constructor (base: u32, mask: nat)
      ensures Model() == Fresh(base, mask)
      ensures base + 2 < U32 ==> Valid()
    {
      this.base := base;
      this.mask := mask;
      used := {};
      next := (base + 2) % U32;
      new;
      if base + 2 < U32 { FreshInv(base, mask); }
    }

    method Allocate() returns (r: Option<u32>)
      modifies this
      ensures (Model(), r) == AllocateIn(old(Model()))
      ensures old(Valid()) ==> Valid()
    {
      ghost var p := Model();
      if Valid() { AllocateLeast(p); }
      var max := Max(base, mask);
      while next < max
        invariant used == p.used
        invariant Scan(used, next, max) == Scan(p.used, p.next, max)
        decreases max - next
      {
        var candidate := next;
        next := next + 1;
        if candidate !in used {
          used := used + {candidate};
          return Some(candidate);
        }
      }
      return None;
    }

    method Release(ip: u32)
      modifies this
      ensures Model() == ReleaseIn(old(Model()), ip)
      ensures old(Valid()) ==> Valid()
    {
      if Valid() { ReleaseKeeps(Model(), ip); }
      var removed := ip in used;
      used := used - {ip};
      if removed && ip < next {
        next := ip;
      }
    }

    method IsAvailable() returns (r: bool)
      ensures r <==> Available(Model())
      ensures Valid() && EndFits(base, mask) ==> (r <==> AllocateIn(Model()).1.Some?)
    {
      if Valid() { ExhaustedIffFull(Model()); }
      r := |used| < (if Size(mask) >= 3 then Size(mask) - 3 else 0);
    }
  }
}
