/** Bytes, byte strings and the facts about slices that the other modules share. */
module Bytes {
  type byte = x: int | 0 <= x < 256
  type bytes = seq<byte>

  datatype Option<+T> = None | Some(value: T)

  /** A read through a `const char *`: the terminator stands just behind the last byte, and
      nothing behind the terminator may be read. */
  function At(s: bytes, i: nat): byte
    requires i <= |s|
  {
    if i < |s| then s[i] else 0
  }

  /** The position behind `t` if `t` stands in `s` at position `i`. */
  function After(s: bytes, i: nat, t: bytes): (r: Option<nat>)
    ensures r.Some? ==> r.value == i + |t| <= |s|
    decreases |t|
  {
    if t == [] then
      if i <= |s| then Some(i) else None
    else
      if i < |s| && s[i] == t[0] then After(s, i + 1, t[1..]) else None
  }

  lemma {:induction false} AfterIsSlice(s: bytes, i: nat, t: bytes)
    ensures After(s, i, t).Some? <==> i + |t| <= |s| && s[i..i + |t|] == t
    decreases |t|
  {
    if t != [] {
      AfterIsSlice(s, i + 1, t[1..]);
      if i + |t| <= |s| {
        assert s[i..i + |t|] == [s[i]] + s[i + 1..i + 1 + |t[1..]|];
      }
    }
  }

  /** The text `a + b` stands at `i` exactly if `a` does and `b` stands behind it. */
  lemma {:induction false} AfterBoth(s: bytes, i: nat, a: bytes, b: bytes)
    ensures After(s, i, a + b) == if After(s, i, a).None? then None else After(s, i + |a|, b)
    decreases |a|
  {
    if a == [] {
      assert a + b == b;
    } else {
      assert (a + b)[1..] == a[1..] + b;
      AfterBoth(s, i + 1, a[1..], b);
    }
  }

  lemma Split(s: bytes, i: nat, a: bytes, b: bytes) returns (j: nat)
    requires After(s, i, a + b).Some?
    ensures After(s, i, a) == Some(j) && After(s, j, b) == After(s, i, a + b)
  {
    AfterBoth(s, i, a, b);
    j := i + |a|;
  }

  lemma Join(s: bytes, i: nat, a: bytes, j: nat, b: bytes)
    requires After(s, i, a) == Some(j)
    ensures After(s, i, a + b) == After(s, j, b)
  {
    AfterBoth(s, i, a, b);
  }

  lemma JoinThree(s: bytes, i: nat, a: bytes, j: nat, b: bytes, k: nat, c: bytes, l: nat, d: bytes)
    requires After(s, i, a) == Some(j) && After(s, j, b) == Some(k) && After(s, k, c) == Some(l)
    ensures After(s, i, a + (b + (c + d))) == After(s, l, d)
  {
    Join(s, k, c, l, d);
    Join(s, j, b, k, c + d);
    Join(s, i, a, j, b + (c + d));
  }

  lemma AfterByte(s: bytes, i: nat, c: byte)
    ensures After(s, i, [c]) == if i < |s| && s[i] == c then Some(i + 1) else None
  {
  }

  lemma AfterCons(s: bytes, i: nat, c: byte, t: bytes)
    ensures After(s, i, [c] + t) == if i < |s| && s[i] == c then After(s, i + 1, t) else None
  {
    AfterBoth(s, i, [c], t);
    AfterByte(s, i, c);
  }

  lemma AfterSelf(s: bytes, i: nat, j: nat)
    requires i <= j <= |s|
    ensures After(s, i, s[i..j]) == Some(j)
  {
    AfterIsSlice(s, i, s[i..j]);
  }

  lemma Assoc(a: bytes, b: bytes, c: bytes)
    ensures a + (b + c) == a + b + c
  {
  }

  lemma DropBoth<T>(a: seq<T>, b: seq<T>, n: nat)
    requires n <= |a|
    ensures (a + b)[n..] == a[n..] + b && forall i | 0 <= i < n :: (a + b)[i] == a[i]
  {
  }

  function Repeat(t: bytes, n: nat): bytes {
    if n == 0 then [] else t + Repeat(t, n - 1)
  }

  /** Which byte stands where in a text that is repeated. */
  lemma {:induction false} RepeatAt(t: bytes, n: nat, k: nat, i: nat)
    requires k < n && i < |t|
    ensures |Repeat(t, n)| == n * |t| && 0 <= k * |t| + i < n * |t|
    ensures Repeat(t, n)[k * |t| + i] == t[i]
    decreases n
  {
    RepeatLength(t, n);
    RepeatLength(t, n - 1);
    Row(k, |t|, i, n);
    if k > 0 {
      RepeatAt(t, n - 1, k - 1, i);
    }
  }

  lemma Row(k: nat, w: nat, i: nat, n: nat)
    requires k < n && i < w
    ensures 0 <= k * w + i < n * w && k * w + i - w == (k - 1) * w + i
  {
    assert (k + 1) * w <= n * w;
  }

  lemma {:induction false} RepeatLength(t: bytes, n: nat)
    ensures |Repeat(t, n)| == n * |t|
  {
    if n > 0 {
      RepeatLength(t, n - 1);
    }
  }

  /** A text of ASCII characters. */
  function Ascii(s: string): (t: bytes)
    requires forall i | 0 <= i < |s| :: s[i] < 128 as char
    ensures |t| == |s| && forall i | 0 <= i < |s| :: t[i] == s[i] as int
  {
    seq(|s|, i requires 0 <= i < |s| && s[i] < 128 as char => Code(s[i]))
  }

  function Code(c: char): (b: byte)
    requires c < 128 as char
    ensures b == c as int
  {
    c as byte
  }

  /** The hexadecimal digits in their order. */
  function LowerHex(d: nat): byte
    requires d < 16
  {
    Ascii("0123456789abcdef")[d]
  }

  function UpperHex(d: nat): byte
    requires d < 16
  {
    Ascii("0123456789ABCDEF")[d]
  }
}
