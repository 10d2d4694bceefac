/** The dynamic strings of src/util/sds.c: the five header types and the operations that reallocate. */
module Sds {
  import opened Bytes

  const SDS_MAX_PREALLOC: nat := 1024 * 1024

  const SDS_TYPE_5: nat := 0
  const SDS_TYPE_8: nat := 1
  const SDS_TYPE_16: nat := 2
  const SDS_TYPE_32: nat := 3
  const SDS_TYPE_64: nat := 4

  /** One more than the largest size_t. */
  const SIZES: nat := 0x1_0000_0000_0000_0000

  /** One more than the largest length that a header type can hold. */
  function Width(type_: nat): (w: nat)
    ensures w > 0
  {
    if type_ == SDS_TYPE_5 then 0x20
    else if type_ == SDS_TYPE_8 then 0x100
    else if type_ == SDS_TYPE_16 then 0x1_0000
    else if type_ == SDS_TYPE_32 then 0x1_0000_0000
    else SIZES
  }

  /** A length as the header type holds it: what does not fit is cut off. */
  function Cut(n: nat, type_: nat): (r: nat)
    ensures r < Width(type_)
    ensures n < Width(type_) ==> r == n
  {
    if type_ == SDS_TYPE_5 then n % 0x20
    else if type_ == SDS_TYPE_8 then n % 0x100
    else if type_ == SDS_TYPE_16 then n % 0x1_0000
    else if type_ == SDS_TYPE_32 then n % 0x1_0000_0000
    else n % SIZES
  }

  /** A difference of two values of type size_t. */
  function Minus(a: nat, b: nat): (r: nat)
    ensures b <= a < SIZES ==> r == a - b
  {
    (a - b) % SIZES
  }

  /** The length in the flags of a type 5 header. */
  function Type5Flags(n: nat): (f: byte)
    ensures f % 8 == SDS_TYPE_5 && f / 8 == Cut(n, SDS_TYPE_5)
  {
    n * 8 % 256
  }

  /** `sdsReqType`. */
  function ReqType(size: nat): (type_: nat)
    requires size < SIZES
    ensures type_ <= SDS_TYPE_64 && size < Width(type_)
    ensures forall smaller | 0 <= smaller < type_ :: size >= Width(smaller)
  {
    if size < 0x20 then SDS_TYPE_5
    else if size < 0x100 then SDS_TYPE_8
    else if size < 0x1_0000 then SDS_TYPE_16
    else if size < 0x1_0000_0000 then SDS_TYPE_32
    else SDS_TYPE_64
  }

  /** The types are numbered as in the header file, and hold lengths of 5, 8, 16, 32 and 64 bits. */
  lemma WidthsInBits()
    ensures forall type_ | 0 <= type_ <= 4 :: Width(type_) == Pow2([5, 8, 16, 32, 64][type_])
    ensures SDS_MAX_PREALLOC == Pow2(20)
  {
    TimesPow2(5, 3);
    TimesPow2(8, 8);
    TimesPow2(16, 4);
    TimesPow2(16, 16);
    TimesPow2(32, 32);
    assert Pow2(5) == 32 && Pow2(8) == 0x100 && Pow2(16) == 0x1_0000 && Pow2(4) == 16;
  }

  lemma {:induction false} TimesPow2(a: nat, b: nat)
    ensures Pow2(a + b) == Pow2(a) * Pow2(b)
  {
    if b > 0 {
      TimesPow2(a, b - 1);
      assert Pow2(a + b) == 2 * Pow2(a + (b - 1));
      Doubled(Pow2(a), Pow2(b - 1));
    }
  }

  lemma Doubled(x: nat, y: nat)
    ensures 2 * (x * y) == x * (2 * y)
  {
  }

  /** What is cut off are the bits that do not fit. */
  lemma CutKeepsLowBits(n: nat, type_: nat) returns (high: nat)
    ensures n == high * Width(type_) + Cut(n, type_)
  {
    if type_ == SDS_TYPE_5 {
      high := n / 0x20;
    } else if type_ == SDS_TYPE_8 {
      high := n / 0x100;
    } else if type_ == SDS_TYPE_16 {
      high := n / 0x1_0000;
    } else if type_ == SDS_TYPE_32 {
      high := n / 0x1_0000_0000;
    } else {
      high := n / SIZES;
    }
  }

  /** The type of a string that is appended to, which is never the one that keeps no allocation. */
  function TypeWithAlloc(size: nat): (type_: nat)
    requires size < SIZES
    ensures SDS_TYPE_8 <= type_ <= SDS_TYPE_64 && size < Width(type_)
    ensures forall smaller | SDS_TYPE_8 <= smaller < type_ :: size >= Width(smaller)
  {
    if size < 0x100 then SDS_TYPE_8 else ReqType(size)
  }

  /** What `sdsMakeRoomFor` allocates for a string of this length that has to grow by `addlen`. */
  function Roomier(len: nat, addlen: nat): nat {
    if len + addlen < SDS_MAX_PREALLOC then 2 * (len + addlen) else len + addlen + SDS_MAX_PREALLOC
  }

  /** The bytes of a new string, and the terminator. */
  method NewBytes(init: Option<bytes>, initlen: nat) returns (b: array<byte>)
    requires init.Some? ==> |init.value| == initlen
    ensures fresh(b) && b.Length == initlen + 1 && b[initlen] == 0
    ensures b[..initlen] == if init.Some? then init.value else Repeat([0], initlen)
  {
    b := new byte[initlen + 1];
    forall i | 0 <= i < initlen {
      b[i] := if init.Some? then init.value[i] else 0;
    }
    b[initlen] := 0;
    RepeatZero(initlen);
    assert init.None? ==> b[..initlen] == Repeat([0], initlen);
  }

  /** A string with its header. A type 5 header is just the `flags`, with the length in the upper five
      bits; the others have `len` and `alloc`, each as wide as the type says. */
  class Str {
    var flags: byte
    var len: nat
    var alloc: nat
    var buf: array<byte>
    /** How often the block has moved, and how many bytes of content with it. */
    ghost var count: nat
    ghost var moved: nat

    function Type(): nat
      reads this
    {
      flags % 8
    }

    /** `sdslen`. */
    function Len(): nat
      reads this
    {
      if Type() == SDS_TYPE_5 then flags / 8 else len
    }

    /** `sdsalloc`. */
    function Alloc(): nat
      reads this
    {
      if Type() == SDS_TYPE_5 then flags / 8 else alloc
    }

    /** `sdsavail`, a difference of unsigned values. */
    function Avail(): nat
      reads this
    {
      if Type() == SDS_TYPE_5 then 0 else Minus(alloc, len)
    }

    /** The lengths are what the header can hold, and all bytes up to `alloc` and one more are there. */
    ghost predicate Fits()
      reads this
    {
      && Type() <= SDS_TYPE_64
      && (Type() != SDS_TYPE_5 ==> len <= alloc < Width(Type()))
      && Alloc() < buf.Length
    }

    ghost predicate Valid()
      reads this, buf
    {
      Fits() && buf[Len()] == 0
    }

    ghost function Contents(): bytes
      requires Fits()
      reads this, buf
    {
      buf[..Len()]
    }

    /** The string as a run of appends sees it. */
    ghost function Growing(): Growth
      reads this
    {
      Growth(Len(), Alloc(), count, moved)
    }

    /** `sdssetlen`, which cuts off what does not fit. */
    method SetLen(newlen: nat)
      modifies this`flags, this`len
      ensures Type() == old(Type()) && (Type() <= SDS_TYPE_64 ==> Len() == Cut(newlen, Type()))
    {
      if Type() == SDS_TYPE_5 {
        flags := Type5Flags(newlen);
      } else {
        len := Cut(newlen, Type());
      }
    }

    /** `sdsinclen`. */
    method IncLen(inc: nat)
      modifies this`flags, this`len
      ensures Type() == old(Type()) && (Type() <= SDS_TYPE_64 ==> Len() == Cut(old(Len()) + inc, Type()))
    {
      if Type() == SDS_TYPE_5 {
        flags := Type5Flags(flags / 8 + inc);
      } else {
        len := Cut(len + inc, Type());
      }
    }

    /** `sdssetalloc`. */
    method SetAlloc(newlen: nat)
      modifies this`alloc
      ensures Type() != SDS_TYPE_5 ==> alloc == Cut(newlen, Type())
      ensures Type() == SDS_TYPE_5 ==> alloc == old(alloc)
    {
      if Type() != SDS_TYPE_5 {
        alloc := Cut(newlen, Type());
      }
    }

    /** The block moves: a new one of the header type `type_`, with room for `size` bytes and one more,
        takes the first `keep` bytes over. */
    method Move(type_: nat, size: nat, keep: nat)
      requires type_ <= SDS_TYPE_64 && keep <= size + 1 && keep <= buf.Length
      modifies this
      ensures fresh(buf) && buf.Length == size + 1 && buf[..keep] == old(buf[..keep])
      ensures Type() == type_ && (type_ == old(Type()) ==> flags == old(flags))
      ensures len == old(len) && alloc == old(alloc)
      ensures count == old(count) + 1 && moved == old(moved) + old(Len())
    {
      count, moved := count + 1, moved + Len();
      var b := new byte[size + 1];
      forall i | 0 <= i < keep {
        b[i] := buf[i];
      }
      assert b[..keep] == buf[..keep];
      buf := b;
      if Type() != type_ {
        flags := type_;
      }
    }

    /** `sdsnewlen`; without `init` the string is all zeroes. */
    constructor (init: Option<bytes>, initlen: nat)
      requires init.Some? ==> |init.value| == initlen
      requires initlen < SIZES
      ensures Valid() && fresh(buf) && Growing() == Growth(initlen, initlen, 0, 0)
      ensures Contents() == if init.Some? then init.value else Repeat([0], initlen)
      ensures Type() == if initlen == 0 then SDS_TYPE_8 else ReqType(initlen)
    {
      var type_ := ReqType(initlen);
      if type_ == SDS_TYPE_5 && initlen == 0 {
        type_ := SDS_TYPE_8;
      }
      flags := type_;
      len := 0;
      alloc := 0;
      count, moved := 0, 0;
      var b := NewBytes(init, initlen);
      buf := b;
      new;
      SetLen(initlen);
      SetAlloc(initlen);
    }

    /** `sdsMakeRoomFor`. The length is kept, and the bytes up to the terminator, whatever it is. */
    method MakeRoomFor(addlen: nat)
      requires Fits() && Roomier(Len(), addlen) < SIZES
      modifies this
      ensures Fits() && Len() == old(Len()) && Avail() >= addlen
      ensures buf[..Len() + 1] == old(buf[..Len() + 1]) && Contents() == old(Contents())
      ensures old(Avail()) >= addlen ==> buf == old(buf)
      ensures buf == old(buf) || fresh(buf)
      ensures Growing() == if old(Avail()) >= addlen then old(Growing())
                           else Growth(old(Len()), Roomier(old(Len()), addlen), old(count) + 1, old(moved) + old(Len()))
      ensures Type() == if old(Avail()) >= addlen then old(Type()) else TypeWithAlloc(Roomier(old(Len()), addlen))
    {
      if Avail() >= addlen {
        return;
      }
      var newlen := Len() + addlen;
      if newlen < SDS_MAX_PREALLOC {
        newlen := newlen * 2;
      } else {
        newlen := newlen + SDS_MAX_PREALLOC;
      }
      Regrow(newlen);
    }

    /** In `sdsMakeRoomFor`: the string moves to a block for `newlen` bytes. */
    method Regrow(newlen: nat)
      requires Fits() && Len() < newlen < SIZES
      modifies this
      ensures Fits() && Len() == old(Len()) && Alloc() == newlen && Type() == TypeWithAlloc(newlen)
      ensures buf[..Len() + 1] == old(buf[..Len() + 1]) && fresh(buf)
      ensures count == old(count) + 1 && moved == old(moved) + old(Len())
    {
      var length, oldtype := Len(), Type();
      var type_ := ReqType(newlen);
      if type_ == SDS_TYPE_5 {
        type_ := SDS_TYPE_8;
      }
      Move(type_, newlen, length + 1);
      if oldtype != type_ {
        SetLen(length);
      }
      SetAlloc(newlen);
    }

    /** `sdsRemoveFreeSpace`. */
    method RemoveFreeSpace()
      requires Valid()
      modifies this
      ensures Valid() && fresh(buf) && Contents() == old(Contents())
      ensures Alloc() == Len() && buf.Length == Len() + 1 && Type() == ReqType(Len())
    {
      var length, oldtype := Len(), Type();
      var type_ := ReqType(length);
      Move(type_, length, length + 1);
      if oldtype != type_ {
        SetLen(length);
      }
      SetAlloc(length);
      assert buf[..length] == buf[..length + 1][..length];
    }

    /** The bytes `t` from position `at` on, the new length and the terminator. */
    method Store(at: nat, t: bytes)
      requires Fits() && at <= Len() && at + |t| <= if Type() == SDS_TYPE_5 then Len() else alloc
      modifies this`flags, this`len, buf
      ensures Valid() && Contents() == old(Contents())[..at] + t && Len() == at + |t|
      ensures Type() == old(Type()) && (Type() != SDS_TYPE_5 ==> Alloc() == old(Alloc()))
    {
      forall i | 0 <= i < |t| {
        buf[at + i] := t[i];
      }
      assert buf[..at + |t|] == old(buf[..Len()])[..at] + t;
      buf[at + |t|] := 0;
      SetLen(at + |t|);
    }

    /** `sdsgrowzero`. */
    method GrowZero(newlen: nat)
      requires Valid() && newlen + SDS_MAX_PREALLOC < SIZES
      modifies this, buf
      ensures Valid() && (buf == old(buf) || fresh(buf))
      ensures Contents() == old(Contents()) + Repeat([0], if newlen <= old(Len()) then 0 else newlen - old(Len()))
      ensures newlen <= old(Len()) ==> Growing() == old(Growing()) && Type() == old(Type())
      ensures newlen > old(Len()) ==> Growing() == Append(old(Growing()), newlen - old(Len()))
    {
      var curlen := Len();
      if newlen > curlen {
        MakeRoomFor(newlen - curlen);
        RepeatZero(newlen - curlen);
        Store(curlen, Repeat([0], newlen - curlen));
      }
    }

    /** `sdscatlen`. */
    method CatLen(t: bytes)
      requires Valid() && Len() + |t| + SDS_MAX_PREALLOC < SIZES
      modifies this, buf
      ensures Valid() && (buf == old(buf) || fresh(buf)) && Contents() == old(Contents()) + t
      ensures Growing() == Append(old(Growing()), |t|)
    {
      var curlen := Len();
      MakeRoomFor(|t|);
      Store(curlen, t);
    }

    /** `sdscpylen`. */
    method CpyLen(t: bytes)
      requires Valid() && |t| + SDS_MAX_PREALLOC < SIZES
      modifies this, buf
      ensures Valid() && (buf == old(buf) || fresh(buf)) && Contents() == t
      ensures old(Alloc()) >= |t| ==> buf == old(buf) && Type() == old(Type())
      ensures old(Alloc()) < |t| ==> Type() != SDS_TYPE_5 && Alloc() == Roomier(old(Len()), |t| - old(Len()))
    {
      if Alloc() < |t| {
        MakeRoomFor(|t| - Len());
      }
      Store(0, t);
    }
  }

  /** The strings that are allocated. */
  class Pool {
    ghost var live: set<Str>

    /** `sdsempty`. */
    method Empty() returns (s: Str)
      modifies this
      ensures fresh(s) && fresh(s.buf) && s.Valid() && s.Contents() == []
      ensures live == old(live) + {s} && s !in old(live)
    {
      s := new Str(Some([]), 0);
      live := live + {s};
    }

    /** `sdsfree`. */
    method Free(s: Str)
      requires s in live
      modifies this
      ensures live == old(live) - {s}
    {
      live := live - {s};
    }
  }

  lemma {:induction false} RepeatZero(n: nat)
    ensures |Repeat([0], n)| == n && forall i | 0 <= i < n :: Repeat([0], n)[i] == 0
  {
    if n != 0 {
      RepeatZero(n - 1);
    }
  }

  // Runs of appends

  /** A string that is appended to: its header, how often it has been reallocated, and how many bytes
      of content that has moved. */
  datatype Growth = Growth(len: nat, alloc: nat, count: nat, moved: nat)

  /** What `sdscatlen` of `n` bytes does to it. */
  function Append(g: Growth, n: nat): Growth
    requires g.len <= g.alloc
  {
    if g.alloc - g.len >= n then g.(len := g.len + n)
    else Growth(g.len + n, Roomier(g.len, n), g.count + 1, g.moved + g.len)
  }

  function AppendAll(g: Growth, ns: seq<nat>): (r: Growth)
    requires g.len <= g.alloc
    ensures r.len <= r.alloc && g.len <= r.len
    decreases |ns|
  {
    if ns == [] then g else AppendAll(Append(g, ns[0]), ns[1..])
  }

  function Pow2(n: nat): nat {
    if n == 0 then 1 else 2 * Pow2(n - 1)
  }

  /** After a growth the allocation is at most twice the length, and more than has ever been moved. */
  predicate Amortised(g: Growth) {
    g.len <= g.alloc && (g.count == 0 ==> g.moved == 0) &&
    (g.count > 0 ==> g.moved < g.alloc <= 2 * g.len && Pow2(g.count) <= g.alloc)
  }

  lemma AppendIsAmortised(g: Growth, n: nat)
    requires Amortised(g) && g.len + n < SDS_MAX_PREALLOC
    ensures Amortised(Append(g, n))
  {
  }

  /** After a growth, as much is free as is used, but never more than the limit. */
  lemma RoomierIsFair(len: nat, addlen: nat)
    ensures var need := len + addlen;
      Roomier(len, addlen) - need == if need < SDS_MAX_PREALLOC then need else SDS_MAX_PREALLOC
  {
  }

  /** Beyond the limit, where the allocation grows by the limit and not by half: what has been moved is
      at most quadratic, the number of reallocations at most linear. */
  predicate Bounded(g: Growth) {
    && g.len <= g.alloc && SDS_MAX_PREALLOC <= g.alloc
    && 2 * SDS_MAX_PREALLOC * g.moved <= g.alloc * g.alloc + SDS_MAX_PREALLOC * SDS_MAX_PREALLOC
    && g.count * SDS_MAX_PREALLOC <= g.alloc + 21 * SDS_MAX_PREALLOC
  }

  /** Whichever of the two holds, and what is free at most. */
  predicate Steady(g: Growth) {
    && (Bounded(g) || (Amortised(g) && g.alloc < 2 * SDS_MAX_PREALLOC))
    && (g.count > 0 ==> g.alloc <= g.len + SDS_MAX_PREALLOC)
  }

  /** (a + m)^2 and (a - m)^2 are squares. */
  lemma Squares(a: nat, m: nat, b: nat)
    requires a + m <= b
    ensures a * a + 2 * m * a + m * m <= b * b && 2 * m * a <= a * a + m * m
    ensures 4 * m * a <= b * b + m * m
  {
    assert 0 <= (a - m) * (a - m);
    assert (a + m) * (a + m) <= b * b;
  }

  lemma {:induction false} FewDoublings(n: nat)
    ensures n >= 21 ==> Pow2(n) >= 2 * SDS_MAX_PREALLOC
  {
    if n > 21 {
      FewDoublings(n - 1);
    } else if n == 21 {
      WidthsInBits();
      assert Pow2(21) == 2 * Pow2(20);
    }
  }

  lemma AppendIsSteady(g: Growth, n: nat)
    requires Steady(g)
    ensures Steady(Append(g, n))
  {
    var r, m := Append(g, n), SDS_MAX_PREALLOC;
    FewDoublings(g.count);
    if g.len + n < m {
      if Amortised(g) {
        AppendIsAmortised(g, n);
      }
    } else if g.alloc - g.len < n {
      Squares(g.alloc, m, r.alloc);
    }
  }

  predicate FewMoves(g: Growth) {
    var m := SDS_MAX_PREALLOC;
    && (g.count > 0 ==> g.alloc <= g.len + m)
    && 2 * m * g.moved <= g.alloc * g.alloc + m * m && g.count * m <= g.alloc + 21 * m
  }

  lemma FreshIsSteady(g: Growth)
    requires g.len <= g.alloc && g.count == 0 == g.moved
    ensures Steady(g)
  {
    assert 0 <= g.alloc * g.alloc;
  }

  /** Every run of appends, however long the string becomes. */
  lemma {:induction false} AppendsAreBounded(g: Growth, ns: seq<nat>)
    requires Steady(g)
    ensures FewMoves(AppendAll(g, ns))
    decreases |ns|
  {
    if ns != [] {
      AppendIsSteady(g, ns[0]);
      AppendsAreBounded(Append(g, ns[0]), ns[1..]);
    } else {
      FewDoublings(g.count);
      Squares(g.alloc, SDS_MAX_PREALLOC, g.alloc + SDS_MAX_PREALLOC);
    }
  }

  function Lengths(ts: seq<bytes>): seq<nat> {
    if ts == [] then [] else [|ts[0]|] + Lengths(ts[1..])
  }

  /** What a run of appends to a fresh string moves. */
  lemma FreshAppends(g: Growth, ns: seq<nat>)
    requires g.len <= g.alloc && g.count == 0 == g.moved
    ensures FewMoves(AppendAll(g, ns)) == true
    ensures var r := AppendAll(g, ns); r.len < SDS_MAX_PREALLOC ==> r.moved == 0 || r.moved < 2 * r.len
  {
    FreshIsSteady(g);
    AppendsAreBounded(g, ns);
    if AppendAll(g, ns).len < SDS_MAX_PREALLOC {
      AppendsAreAmortised(g, ns);
    }
  }

  /** A run of appends to a string. */
  method CatAll(s: Str, ts: seq<bytes>)
    requires s.Valid() && AppendAll(s.Growing(), Lengths(ts)).len + SDS_MAX_PREALLOC < SIZES
    modifies s, s.buf
    ensures s.Valid() && s.Growing() == AppendAll(old(s.Growing()), Lengths(ts))
    ensures old(s.count) == 0 == old(s.moved) && s.Len() < SDS_MAX_PREALLOC ==> s.moved == 0 || s.moved < 2 * s.Len()
    ensures old(s.count) == 0 == old(s.moved) ==> FewMoves(s.Growing()) == true
    ensures s.buf == old(s.buf) || fresh(s.buf)
  {
    var i := 0;
    ghost var g, all := s.Growing(), AppendAll(s.Growing(), Lengths(ts));
    assert ts[0..] == ts;
    if g.count == 0 == g.moved {
      FreshAppends(g, Lengths(ts));
    }
    while i < |ts|
      invariant i <= |ts| && s.Valid() && (s.buf == old(s.buf) || fresh(s.buf))
      invariant AppendAll(s.Growing(), Lengths(ts[i..])) == all
    {
      OneLength(ts, i);
      s.CatLen(ts[i]);
      i := i + 1;
    }
  }

  lemma OneLength(ts: seq<bytes>, i: nat)
    requires i < |ts|
    ensures Lengths(ts[i..]) == [|ts[i]|] + Lengths(ts[i + 1..])
    ensures Lengths(ts[i..])[1..] == Lengths(ts[i + 1..])
  {
    assert ts[i..][1..] == ts[i + 1..];
  }

  /** Every run of appends that stays below the limit moves less than twice the bytes that it ends
      with, in logarithmically many reallocations. */
  lemma {:induction false} AppendsAreAmortised(g: Growth, ns: seq<nat>)
    requires Amortised(g) && AppendAll(g, ns).len < SDS_MAX_PREALLOC
    ensures var r := AppendAll(g, ns);
      Amortised(r) && (r.count > 0 ==> r.moved < 2 * r.len && Pow2(r.count) <= 2 * r.len)
    decreases |ns|
  {
    if ns != [] {
      AppendIsAmortised(g, ns[0]);
      AppendsAreAmortised(Append(g, ns[0]), ns[1..]);
    }
  }
}
