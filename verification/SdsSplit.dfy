/** `sdssplitlen` and `sdsjoinsds`: which of them undoes the other, and when. */
module SdsSplit {
  import opened Bytes
  import opened Sds

  /** The separator stands at position `k`. */
  predicate Match(s: bytes, k: nat, sep: bytes) {
    After(s, k, sep).Some?
  }

  predicate Absent(s: bytes, sep: bytes) {
    forall k | 0 <= k <= |s| :: !Match(s, k, sep)
  }

  /** The loop of `sdssplitlen` at position `j`, in a token that began at `start`. */
  function Tokens(s: bytes, sep: bytes, start: nat, j: nat): (ts: seq<bytes>)
    requires sep != [] && start <= j <= |s|
    ensures ts != []
    decreases |s| - j
  {
    if j + |sep| > |s| then [s[start..]]
    else if Match(s, j, sep) then [s[start..j]] + Tokens(s, sep, j + |sep|, j + |sep|)
    else Tokens(s, sep, start, j + 1)
  }

  /** `sdssplitlen`: no tokens for the empty string, and the null pointer for the empty separator. */
  function Split(s: bytes, sep: bytes): Option<seq<bytes>> {
    if sep == [] then None else if s == [] then Some([]) else Some(Tokens(s, sep, 0, 0))
  }

  /** `sdsjoinsds`. */
  function Join(ts: seq<bytes>, sep: bytes): bytes {
    if ts == [] then [] else if |ts| == 1 then ts[0] else ts[0] + (sep + Join(ts[1..], sep))
  }

  // Splitting and joining again

  lemma JoinCons(t: bytes, rest: seq<bytes>, sep: bytes)
    requires rest != []
    ensures Join([t] + rest, sep) == t + (sep + Join(rest, sep))
  {
    assert ([t] + rest)[1..] == rest;
  }

  /** The three ways in which the loop goes on. */
  lemma TokensEnd(s: bytes, sep: bytes, start: nat, j: nat)
    requires sep != [] && start <= j <= |s| < j + |sep|
    ensures Tokens(s, sep, start, j) == [s[start..]]
  {
  }

  lemma TokensFound(s: bytes, sep: bytes, start: nat, j: nat)
    requires sep != [] && start <= j && Match(s, j, sep)
    ensures Tokens(s, sep, start, j) == [s[start..j]] + Tokens(s, sep, j + |sep|, j + |sep|)
  {
  }

  lemma TokensNext(s: bytes, sep: bytes, start: nat, j: nat)
    requires sep != [] && start <= j && j + |sep| <= |s| && !Match(s, j, sep)
    ensures Tokens(s, sep, start, j) == Tokens(s, sep, start, j + 1)
  {
  }

  /** The join of the tokens that are still to come stands where they begin. */
  lemma {:induction false} JoinTokens(s: bytes, sep: bytes, start: nat, j: nat)
    requires sep != [] && start <= j <= |s|
    ensures After(s, start, Join(Tokens(s, sep, start, j), sep)) == Some(|s|)
    decreases |s| - j
  {
    if j + |sep| > |s| {
      TokensEnd(s, sep, start, j);
      AfterSelf(s, start, |s|);
      assert s[start..|s|] == s[start..];
    } else if Match(s, j, sep) {
      var e := j + |sep|;
      var t, rest := s[start..j], Tokens(s, sep, e, e);
      JoinTokens(s, sep, e, e);
      TokensFound(s, sep, start, j);
      JoinCons(t, rest, sep);
      AfterSelf(s, start, j);
      Bytes.Join(s, j, sep, e, Join(rest, sep));
      Bytes.Join(s, start, t, j, sep + Join(rest, sep));
    } else {
      JoinTokens(s, sep, start, j + 1);
      TokensNext(s, sep, start, j);
    }
  }

  lemma OnlySelf(s: bytes, t: bytes)
    requires After(s, 0, t) == Some(|s|)
    ensures t == s
  {
    AfterIsSlice(s, 0, t);
    assert s[0..0 + |t|] == s;
  }

  /** Joining what splitting gives, with the same separator, restores the string. */
  lemma SplitThenJoin(s: bytes, sep: bytes)
    requires sep != []
    ensures Split(s, sep).Some? && Join(Split(s, sep).value, sep) == s
  {
    if s != [] {
      JoinTokens(s, sep, 0, 0);
      OnlySelf(s, Join(Tokens(s, sep, 0, 0), sep));
    }
  }

  /** No separator, no tokens. */
  lemma SplitNeedsSeparator(s: bytes, sep: bytes)
    ensures Split(s, sep).None? <==> sep == []
  {
  }

  /** A join holds the strings in their order, with one separator between any two of them. */
  lemma {:induction false} JoinOfBoth(ts: seq<bytes>, us: seq<bytes>, sep: bytes)
    requires ts != [] && us != []
    ensures Join(ts + us, sep) == Join(ts, sep) + (sep + Join(us, sep))
  {
    if |ts| == 1 {
      JoinCons(ts[0], us, sep);
      assert ts + us == [ts[0]] + us;
    } else {
      JoinOfBoth(ts[1..], us, sep);
      assert (ts + us)[1..] == ts[1..] + us;
      Assoc(ts[0], sep, Join(ts[1..], sep));
      Assoc(ts[0], sep + Join(ts[1..], sep), sep + Join(us, sep));
      Assoc(sep, Join(ts[1..], sep), sep + Join(us, sep));
    }
  }

  lemma JoinOfOne(t: bytes, sep: bytes)
    ensures Join([t], sep) == t && Join([], sep) == []
  {
  }

  // Joining and splitting again

  /** Behind every token but the last one, the separator is the first one that is found. */
  predicate Separable(ts: seq<bytes>, sep: bytes) {
    && (forall i, k | 0 <= i < |ts| - 1 && 0 <= k < |ts[i]| :: !Match(ts[i] + sep, k, sep))
    && (ts != [] ==> Absent(ts[|ts| - 1], sep))
  }

  /** The separator stands in a part of the string where it stands in the string. */
  lemma Window(s: bytes, start: nat, u: bytes, k: nat, sep: bytes)
    requires After(s, start, u).Some? && k + |sep| <= |u|
    ensures Match(s, start + k, sep) <==> Match(u, k, sep)
    decreases |u|
  {
    if k == 0 {
      Prefix(s, start, u, sep);
    } else {
      Window(s, start + 1, u[1..], k - 1, sep);
      Shift(u, k, sep);
    }
  }

  lemma {:induction false} Prefix(s: bytes, start: nat, u: bytes, sep: bytes)
    requires After(s, start, u).Some? && |sep| <= |u|
    ensures Match(s, start, sep) <==> Match(u, 0, sep)
  {
    AfterIsSlice(s, start, u);
    AfterIsSlice(s, start, sep);
    AfterIsSlice(u, 0, sep);
    assert s[start..start + |u|][..|sep|] == s[start..start + |sep|];
  }

  lemma {:induction false} Shift(u: bytes, k: nat, sep: bytes)
    requires 0 < k <= |u|
    ensures Match(u, k, sep) <==> Match(u[1..], k - 1, sep)
    decreases |sep|
  {
    if sep != [] && k < |u| {
      Shift(u, k + 1, sep[1..]);
    }
  }

  /** The loop walks over positions at which there is no separator. */
  lemma {:induction false} WalkOver(s: bytes, sep: bytes, start: nat, j: nat, e: nat)
    requires sep != [] && start <= j <= e <= |s|
    requires forall k | j <= k < e :: !Match(s, k, sep)
    ensures Tokens(s, sep, start, j) == Tokens(s, sep, start, e)
    decreases e - j
  {
    if j < e && j + |sep| <= |s| {
      WalkOver(s, sep, start, j + 1, e);
    }
  }

  lemma LastToken(s: bytes, sep: bytes, start: nat, t: bytes)
    requires sep != [] && After(s, start, t) == Some(|s|) && Absent(t, sep)
    ensures Tokens(s, sep, start, start) == [t]
  {
    forall k | start <= k < |s|
      ensures !Match(s, k, sep)
    {
      if k + |sep| <= |s| {
        Window(s, start, t, k - start, sep);
      }
    }
    WalkOver(s, sep, start, start, |s|);
    TokensEnd(s, sep, start, |s|);
    AfterIsSlice(s, start, t);
    assert s[start..|s|] == s[start..];
  }

  lemma FirstToken(s: bytes, sep: bytes, start: nat, t: bytes, e: nat)
    requires sep != [] && After(s, start, t) == Some(e) && Match(s, e, sep)
    requires forall k | start <= k < e :: !Match(s, k, sep)
    ensures Tokens(s, sep, start, start) == [t] + Tokens(s, sep, e + |sep|, e + |sep|)
  {
    WalkOver(s, sep, start, start, e);
    AfterIsSlice(s, start, t);
    assert s[start..e] == t;
    TokensFound(s, sep, start, e);
  }

  lemma NoneBefore(s: bytes, sep: bytes, start: nat, t: bytes, e: nat)
    requires After(s, start, t) == Some(e) && Match(s, e, sep)
    requires forall k | 0 <= k < |t| :: !Match(t + sep, k, sep)
    ensures forall k | start <= k < e :: !Match(s, k, sep)
  {
    Bytes.Join(s, start, t, e, sep);
    forall k | start <= k < e
      ensures !Match(s, k, sep)
    {
      Window(s, start, t + sep, k - start, sep);
    }
  }

  lemma SeparableRest(ts: seq<bytes>, sep: bytes)
    requires |ts| > 1 && Separable(ts, sep)
    ensures Separable(ts[1..], sep) && forall k | 0 <= k < |ts[0]| :: !Match(ts[0] + sep, k, sep)
  {
    var rest := ts[1..];
    forall i, k | 0 <= i < |rest| - 1 && 0 <= k < |rest[i]|
      ensures !Match(rest[i] + sep, k, sep)
    {
      assert rest[i] == ts[i + 1];
    }
    assert rest[|rest| - 1] == ts[|ts| - 1];
  }

  lemma {:induction false} TokensOfJoin(s: bytes, sep: bytes, start: nat, ts: seq<bytes>)
    requires sep != [] && start <= |s| && After(s, start, Join(ts, sep)) == Some(|s|) && ts != [] && Separable(ts, sep)
    ensures Tokens(s, sep, start, start) == ts
    decreases |ts|
  {
    if |ts| == 1 {
      LastToken(s, sep, start, ts[0]);
    } else {
      var rest := Join(ts[1..], sep);
      var e := Bytes.Split(s, start, ts[0], sep + rest);
      var f := Bytes.Split(s, e, sep, rest);
      SeparableRest(ts, sep);
      NoneBefore(s, sep, start, ts[0], e);
      FirstToken(s, sep, start, ts[0], e);
      TokensOfJoin(s, sep, f, ts[1..]);
      assert [ts[0]] + ts[1..] == ts;
    }
  }

  /** What splitting gives is separable, and no token of it holds the separator. */
  lemma {:induction false} TokensAreSeparable(s: bytes, sep: bytes, start: nat, j: nat)
    requires sep != [] && start <= j <= |s|
    requires forall k | start <= k < j :: !Match(s, k, sep)
    ensures Separable(Tokens(s, sep, start, j), sep)
    ensures forall t <- Tokens(s, sep, start, j) :: Absent(t, sep)
    decreases |s| - j
  {
    if j + |sep| > |s| {
      TokensEnd(s, sep, start, j);
      AbsentBetween(s, sep, start, |s|);
      assert s[start..|s|] == s[start..];
    } else if Match(s, j, sep) {
      TokensAreSeparable(s, sep, j + |sep|, j + |sep|);
      TokensFound(s, sep, start, j);
      AbsentBetween(s, sep, start, j);
      FirstAt(s, sep, start, j);
      SeparableCons(s[start..j], Tokens(s, sep, j + |sep|, j + |sep|), sep);
    } else {
      TokensAreSeparable(s, sep, start, j + 1);
      TokensNext(s, sep, start, j);
    }
  }

  lemma AbsentBetween(s: bytes, sep: bytes, start: nat, j: nat)
    requires sep != [] && start <= j <= |s| && forall k | start <= k && k + |sep| <= j :: !Match(s, k, sep)
    ensures Absent(s[start..j], sep)
  {
    AfterSelf(s, start, j);
    forall k: nat
      ensures !Match(s[start..j], k, sep)
    {
      if k + |sep| <= j - start {
        Window(s, start, s[start..j], k, sep);
      }
    }
  }

  lemma FirstAt(s: bytes, sep: bytes, start: nat, j: nat)
    requires sep != [] && start <= j && Match(s, j, sep) && forall k | start <= k < j :: !Match(s, k, sep)
    ensures forall k | 0 <= k < j - start :: !Match(s[start..j] + sep, k, sep)
  {
    AfterSelf(s, start, j);
    Bytes.Join(s, start, s[start..j], j, sep);
    forall k | 0 <= k < j - start
      ensures !Match(s[start..j] + sep, k, sep)
    {
      Window(s, start, s[start..j] + sep, k, sep);
    }
  }

  lemma SeparableCons(t: bytes, rest: seq<bytes>, sep: bytes)
    requires rest != [] && Separable(rest, sep) && forall k | 0 <= k < |t| :: !Match(t + sep, k, sep)
    ensures Separable([t] + rest, sep)
  {
    var ts := [t] + rest;
    forall i, k | 0 <= i < |ts| - 1 && 0 <= k < |ts[i]|
      ensures !Match(ts[i] + sep, k, sep)
    {
      if i > 0 {
        assert ts[i] == rest[i - 1];
      }
    }
    assert ts[|ts| - 1] == rest[|rest| - 1];
  }

  /** Splitting a join gives the tokens back exactly if they are separable and not just one empty token. */
  lemma JoinThenSplit(ts: seq<bytes>, sep: bytes)
    requires sep != []
    ensures Split(Join(ts, sep), sep) == Some(ts) <==> Separable(ts, sep) && ts != [[]]
  {
    var s := Join(ts, sep);
    if Separable(ts, sep) && ts != [[]] && s != [] {
      AfterIsSlice(s, 0, s);
      TokensOfJoin(s, sep, 0, ts);
    }
    if Split(s, sep) == Some(ts) && s != [] {
      TokensAreSeparable(s, sep, 0, 0);
    }
  }

  /** No token holds the separator. */
  lemma TokensHoldNoSeparator(s: bytes, sep: bytes)
    requires sep != []
    ensures forall t <- Split(s, sep).value :: Absent(t, sep)
  {
    TokensAreSeparable(s, sep, 0, 0);
  }

  // The functions themselves

  /** The first `count` slots of the array hold strings with the contents `ts`. */
  ghost predicate Filled(tokens: array<Str?>, ts: seq<bytes>)
    reads tokens, tokens[..], set t: Str? | t in tokens[..] && t != null :: t.buf
  {
    |ts| <= tokens.Length &&
    forall k | 0 <= k < |ts| ::
      var t := tokens[k];
      t != null && t.Valid() && t.Contents() == ts[k]
  }

  /** `s_realloc` of the array of tokens. */
  method MoreSlots(tokens: array<Str?>, slots: nat, ghost ts: seq<bytes>) returns (newtokens: array<Str?>)
    requires tokens.Length <= slots && Filled(tokens, ts)
    ensures fresh(newtokens) && newtokens.Length == slots && Filled(newtokens, ts)
  {
    newtokens := new Str?[slots](_ => null);
    forall i | 0 <= i < tokens.Length {
      newtokens[i] := tokens[i];
    }
  }

  /** A new token in the next slot. */
  method AddToken(tokens: array<Str?>, elements: nat, t: bytes, ghost ts: seq<bytes>)
    requires elements == |ts| < tokens.Length && |t| < SIZES && Filled(tokens, ts)
    modifies tokens
    ensures Filled(tokens, ts + [t])
  {
    var token := new Str(Some(t), |t|);
    tokens[elements] := token;
  }

  lemma OneMore(ts: seq<bytes>, t: bytes, rest: seq<bytes>)
    ensures ts + ([t] + rest) == ts + [t] + rest
  {
  }

  /** What the loop of `sdssplitlen` still has to find, with the tokens found so far in front. */
  ghost predicate Left(s: bytes, sep: bytes, start: nat, j: nat, done: seq<bytes>, all: seq<bytes>)
    requires sep != [] && start <= j <= |s|
  {
    done + Tokens(s, sep, start, j) == all
  }

  lemma AllIsLeft(s: bytes, sep: bytes)
    requires sep != []
    ensures Left(s, sep, 0, 0, [], Tokens(s, sep, 0, 0)) == true
  {
  }

  /** One round of the loop of `sdssplitlen`. */
  lemma LeftRound(s: bytes, sep: bytes, start: nat, j: nat, done: seq<bytes>, all: seq<bytes>)
    requires sep != [] && start <= j && j + |sep| <= |s| && Left(s, sep, start, j, done, all)
    ensures Match(s, j, sep) ==> Left(s, sep, j + |sep|, j + |sep|, done + [s[start..j]], all) == true
    ensures !Match(s, j, sep) ==> Left(s, sep, start, j + 1, done, all) == true
  {
    if Match(s, j, sep) {
      OneMore(done, s[start..j], Tokens(s, sep, j + |sep|, j + |sep|));
    }
  }

  lemma LeftLast(s: bytes, sep: bytes, start: nat, j: nat, done: seq<bytes>, all: seq<bytes>)
    requires sep != [] && start <= j <= |s| < j + |sep| && Left(s, sep, start, j, done, all)
    ensures done + [s[start..]] == all
  {
  }

  /** `sdssplitlen`: the array of tokens and how many of its slots are in use, or the null pointer. */
  method SplitLen(s: bytes, sep: bytes) returns (tokens: array?<Str?>, count: nat)
    requires |s| < SIZES
    ensures tokens == null <==> Split(s, sep).None?
    ensures tokens != null ==>
      fresh(tokens) && count == |Split(s, sep).value| && Filled(tokens, Split(s, sep).value)
  {
    var elements, slots, start, j := 0, 5, 0, 0;
    if |sep| < 1 {
      return null, 0;
    }
    var ts := new Str?[slots](_ => null);
    if |s| == 0 {
      return ts, 0;
    }
    ghost var done: seq<bytes>, all := [], Tokens(s, sep, 0, 0);
    AllIsLeft(s, sep);
    while j < |s| - (|sep| - 1)
      invariant 0 <= start <= j <= |s| && elements == |done| < slots == ts.Length
      invariant fresh(ts) && Filled(ts, done)
      invariant Left(s, sep, start, j, done, all) == true
      decreases |s| - j
    {
      if slots < elements + 2 {
        slots := slots * 2;
        ts := MoreSlots(ts, slots, done);
      }
      LeftRound(s, sep, start, j, done, all);
      if Match(s, j, sep) {
        AddToken(ts, elements, s[start..j], done);
        done := done + [s[start..j]];
        elements := elements + 1;
        start := j + |sep|;
        j := j + |sep| - 1;
      }
      j := j + 1;
    }
    LeftLast(s, sep, start, j, done, all);
    AddToken(ts, elements, s[start..], done);
    return ts, elements + 1;
  }

  lemma {:induction false} JoinSnoc(ts: seq<bytes>, t: bytes, sep: bytes)
    ensures Join(ts + [t], sep) == if ts == [] then t else Join(ts, sep) + (sep + t)
    decreases |ts|
  {
    if ts == [] {
      assert ts + [t] == [t];
    } else {
      var rest := ts[1..];
      JoinSnoc(rest, t, sep);
      assert (ts + [t])[1..] == rest + [t];
      if rest != [] {
        assert ts[0] + (sep + (Join(rest, sep) + (sep + t))) == ts[0] + (sep + Join(rest, sep)) + (sep + t);
      } else {
        assert ts == [ts[0]] && Join(ts + [t], sep) == ts[0] + (sep + t);
      }
    }
  }

  lemma {:induction false} JoinLength(ts: seq<bytes>, n: nat, sep: bytes)
    requires n <= |ts|
    ensures |Join(ts[..n], sep)| <= |Join(ts, sep)|
    ensures n < |ts| ==> |Join(ts[..n], sep)| + (if n == 0 then 0 else |sep|) + |ts[n]| <= |Join(ts, sep)|
    decreases |ts| - n
  {
    if n == |ts| {
      assert ts[..n] == ts;
    } else {
      assert ts[..n + 1] == ts[..n] + [ts[n]];
      JoinSnoc(ts[..n], ts[n], sep);
      JoinLength(ts, n + 1, sep);
    }
  }

  /** What has been joined before token `j`. */
  function Joined(ts: seq<bytes>, j: nat, sep: bytes): bytes
    requires j <= |ts|
  {
    Join(ts[..j], sep) + (if 0 < j < |ts| then sep else [])
  }

  lemma JoinedNext(ts: seq<bytes>, j: nat, sep: bytes)
    requires j < |ts|
    ensures Joined(ts, j + 1, sep) == Joined(ts, j, sep) + ts[j] + (if j != |ts| - 1 then sep else [])
    ensures |Joined(ts, j, sep)| + |ts[j]| <= |Join(ts, sep)|
    ensures Joined(ts, 0, sep) == [] && Joined(ts, |ts|, sep) == Join(ts, sep)
  {
    assert ts[..j + 1] == ts[..j] + [ts[j]] && ts[..|ts|] == ts;
    JoinSnoc(ts[..j], ts[j], sep);
    JoinLength(ts, j, sep);
    Empty(ts[j]);
    Empty(Join(ts, sep));
    Assoc(Join(ts[..j], sep), sep, ts[j]);
  }

  lemma Empty(t: bytes)
    ensures [] + t == t && t + [] == t && [] + [] + t == t
  {
  }

  /** `sdsjoinsds`. */
  method JoinSds(argv: seq<Str>, sep: bytes, ghost ts: seq<bytes>) returns (join: Str)
    requires |argv| == |ts| && forall k | 0 <= k < |ts| :: argv[k].Valid() && argv[k].Contents() == ts[k]
    requires |Join(ts, sep)| + |sep| + SDS_MAX_PREALLOC < SIZES
    ensures fresh(join) && fresh(join.buf) && join.Valid() && join.Contents() == Join(ts, sep)
  {
    join := new Str(Some([]), 0);
    var j := 0;
    while j < |argv|
      invariant j <= |argv| && fresh(join) && fresh(join.buf) && join.Valid()
      invariant join.Contents() == if ts == [] then [] else Joined(ts, j, sep)
    {
      JoinedNext(ts, j, sep);
      assert |join.Contents()| == join.Len();
      join.CatLen(argv[j].buf[..argv[j].Len()]);
      assert |join.Contents()| == join.Len();
      if j != |argv| - 1 {
        join.CatLen(sep);
      } else {
        assert join.Contents() + [] == join.Contents();
      }
      j := j + 1;
    }
    if ts != [] {
      JoinedNext(ts, 0, sep);
    }
  }
}
