/** `sdscatrepr` and `sdssplitargs`: the tokenizer takes apart what the quoting has put together. */
module SdsQuoting {
  import opened Bytes
  import opened Sds

  const QUOTE: byte := 0x22
  const APOSTROPHE: byte := 0x27
  const BACKSLASH: byte := 0x5C
  const LOWER_X: byte := 0x78

  /** `isprint` and `isspace` in the C locale. */
  predicate IsPrint(c: byte) {
    0x20 <= c <= 0x7E
  }

  predicate IsSpace(c: byte) {
    c == 0x20 || 0x09 <= c <= 0x0D
  }

  predicate Blank(t: bytes) {
    forall k | 0 <= k < |t| :: IsSpace(t[k])
  }

  predicate IsHex(c: byte) {
    0x30 <= c <= 0x39 || 0x61 <= c <= 0x66 || 0x41 <= c <= 0x46
  }

  /** `hex_digit_to_int`. */
  function HexDigit(c: byte): (d: nat)
    ensures d < 16
  {
    if 0x30 <= c <= 0x39 then c - 0x30
    else if 0x61 <= c <= 0x66 then c - 0x61 + 10
    else if 0x41 <= c <= 0x46 then c - 0x41 + 10
    else 0
  }

  // Quoting

  function HexChar(d: nat): byte
    requires d < 16
  {
    if d < 10 then 0x30 + d else 0x61 + (d - 10)
  }

  /** What one round of the loop of `sdscatrepr` appends. */
  function Repr(c: byte): bytes {
    if c == BACKSLASH || c == QUOTE then [BACKSLASH, c]
    else if c == 0x0A then [BACKSLASH, 0x6E]
    else if c == 0x0D then [BACKSLASH, 0x72]
    else if c == 0x09 then [BACKSLASH, 0x74]
    else if c == 0x07 then [BACKSLASH, 0x61]
    else if c == 0x08 then [BACKSLASH, 0x62]
    else if IsPrint(c) then [c]
    else [BACKSLASH, LOWER_X, HexChar(c / 16), HexChar(c % 16)]
  }

  function ReprAll(t: bytes): bytes {
    if t == [] then [] else Repr(t[0]) + ReprAll(t[1..])
  }

  function Quoted(t: bytes): bytes {
    [QUOTE] + (ReprAll(t) + [QUOTE])
  }

  // The tokenizer

  /** A token whose rest starts at some position: its bytes and the position behind it, or an error. */
  datatype Token = Bad | Token(text: bytes, end: nat)

  function Cons(c: byte, t: Token): Token {
    if t.Bad? then Bad else Token([c] + t.text, t.end)
  }

  /** A closing quote has to be followed by a space or nothing at all. */
  function Close(s: bytes, i: nat): (t: Token)
    requires i < |s|
    ensures t.Token? ==> i < t.end <= |s|
  {
    if At(s, i + 1) != 0 && !IsSpace(At(s, i + 1)) then Bad else Token([], i + 1)
  }

  function Unescape(c: byte): byte {
    if c == 0x6E then 0x0A
    else if c == 0x72 then 0x0D
    else if c == 0x74 then 0x09
    else if c == 0x62 then 0x08
    else if c == 0x61 then 0x07
    else c
  }

  /** In "quotes". */
  function InQuotes(s: bytes, i: nat): (t: Token)
    requires i <= |s|
    ensures t.Token? ==> i < t.end <= |s|
    decreases |s| - i
  {
    var c := At(s, i);
    if c == BACKSLASH && At(s, i + 1) == LOWER_X && IsHex(At(s, i + 2)) && IsHex(At(s, i + 3)) then
      Cons(HexDigit(s[i + 2]) * 16 + HexDigit(s[i + 3]), InQuotes(s, i + 4))
    else if c == BACKSLASH && At(s, i + 1) != 0 then
      Cons(Unescape(s[i + 1]), InQuotes(s, i + 2))
    else if c == QUOTE then
      Close(s, i)
    else if c == 0 then
      Bad
    else
      Cons(c, InQuotes(s, i + 1))
  }

  /** In 'single quotes'. */
  function InSingleQuotes(s: bytes, i: nat): (t: Token)
    requires i <= |s|
    ensures t.Token? ==> i < t.end <= |s|
    decreases |s| - i
  {
    var c := At(s, i);
    if c == BACKSLASH && At(s, i + 1) == APOSTROPHE then
      Cons(APOSTROPHE, InSingleQuotes(s, i + 2))
    else if c == APOSTROPHE then
      Close(s, i)
    else if c == 0 then
      Bad
    else
      Cons(c, InSingleQuotes(s, i + 1))
  }

  predicate EndsToken(c: byte) {
    c == 0x20 || c == 0x0A || c == 0x0D || c == 0x09 || c == 0
  }

  /** Outside of quotes. */
  function Bare(s: bytes, i: nat): (t: Token)
    requires i <= |s|
    ensures t.Token? ==> i <= t.end <= |s|
    ensures t.Token? && !EndsToken(At(s, i)) ==> i < t.end
    decreases |s| - i
  {
    var c := At(s, i);
    if EndsToken(c) then Token([], if c == 0 then i else i + 1)
    else if c == QUOTE then InQuotes(s, i + 1)
    else if c == APOSTROPHE then InSingleQuotes(s, i + 1)
    else Cons(c, Bare(s, i + 1))
  }

  function SkipBlanks(s: bytes, i: nat): (j: nat)
    requires i <= |s|
    ensures i <= j <= |s| && !IsSpace(At(s, j))
    decreases |s| - i
  {
    if IsSpace(At(s, i)) then SkipBlanks(s, i + 1) else i
  }

  /** `sdssplitargs` from position `i` on: the tokens, or None for the null pointer. */
  function SplitFrom(s: bytes, i: nat): Option<seq<bytes>>
    requires i <= |s|
    decreases |s| - i
  {
    var j := SkipBlanks(s, i);
    if At(s, j) == 0 then Some([]) else
    var t := Bare(s, j);
    if t.Bad? then None else
    var rest := SplitFrom(s, t.end);
    if rest.None? then None else Some([t.text] + rest.value)
  }

  // The round trip

  lemma HexByte(c: byte)
    ensures IsHex(HexChar(c / 16)) && IsHex(HexChar(c % 16))
    ensures HexDigit(HexChar(c / 16)) * 16 + HexDigit(HexChar(c % 16)) == c
  {
  }

  lemma AfterTwo(s: bytes, i: nat, a: byte, b: byte)
    ensures After(s, i, [a, b]) == if i + 2 <= |s| && s[i] == a && s[i + 1] == b then Some(i + 2) else None
  {
    AfterIsSlice(s, i, [a, b]);
    if i + 2 <= |s| {
      assert s[i..i + 2] == [s[i], s[i + 1]];
    }
  }

  lemma AfterFour(s: bytes, i: nat, a: byte, b: byte, c: byte, d: byte)
    requires After(s, i, [a, b, c, d]).Some?
    ensures i + 4 <= |s| && s[i] == a && s[i + 1] == b && s[i + 2] == c && s[i + 3] == d
  {
    AfterIsSlice(s, i, [a, b, c, d]);
    assert s[i..i + 4][0] == a && s[i..i + 4][1] == b && s[i..i + 4][2] == c && s[i..i + 4][3] == d;
  }

  lemma HexReadsBack(s: bytes, i: nat, c: byte)
    requires After(s, i, [BACKSLASH, LOWER_X, HexChar(c / 16), HexChar(c % 16)]).Some?
    ensures i + 4 <= |s| && InQuotes(s, i) == Cons(c, InQuotes(s, i + 4))
  {
    AfterFour(s, i, BACKSLASH, LOWER_X, HexChar(c / 16), HexChar(c % 16));
    HexByte(c);
  }

  lemma EscapeReadsBack(s: bytes, i: nat, e: byte)
    requires After(s, i, [BACKSLASH, e]).Some? && e != LOWER_X && e != 0
    ensures i + 2 <= |s| && InQuotes(s, i) == Cons(Unescape(e), InQuotes(s, i + 2))
  {
    AfterTwo(s, i, BACKSLASH, e);
  }

  /** One quoted byte is read back as itself, whatever stands behind it. */
  lemma ReprReadsBack(s: bytes, i: nat, c: byte, k: nat)
    requires After(s, i, Repr(c)) == Some(k)
    ensures i < k <= |s| && InQuotes(s, i) == Cons(c, InQuotes(s, k))
  {
    if |Repr(c)| == 1 {
      AfterByte(s, i, c);
    } else if |Repr(c)| == 2 {
      assert Repr(c) == [BACKSLASH, Repr(c)[1]] && Unescape(Repr(c)[1]) == c;
      EscapeReadsBack(s, i, Repr(c)[1]);
    } else {
      HexReadsBack(s, i, c);
    }
  }

  lemma {:induction false} ReprAllReadsBack(s: bytes, i: nat, t: bytes, k: nat)
    requires After(s, i, ReprAll(t)) == Some(k) && At(s, k) == QUOTE
    ensures InQuotes(s, i) == if At(s, k + 1) == 0 || IsSpace(At(s, k + 1)) then Token(t, k + 1) else Bad
    decreases |t|
  {
    if t != [] {
      var j := Split(s, i, Repr(t[0]), ReprAll(t[1..]));
      ReprReadsBack(s, i, t[0], j);
      ReprAllReadsBack(s, j, t[1..], k);
      assert [t[0]] + t[1..] == t;
    }
  }

  /** A quoted string is read back exactly if it is followed by a space or nothing at all. */
  lemma QuotedReadsBack(s: bytes, i: nat, t: bytes, k: nat)
    requires After(s, i, Quoted(t)) == Some(k)
    ensures i < k <= |s| && s[i] == QUOTE
    ensures Bare(s, i) == if At(s, k) == 0 || IsSpace(At(s, k)) then Token(t, k) else Bad
  {
    var j := QuotedParts(s, i, t);
    ReprAllReadsBack(s, i + 1, t, j);
  }

  lemma QuotedParts(s: bytes, i: nat, t: bytes) returns (j: nat)
    requires After(s, i, Quoted(t)).Some?
    ensures i < |s| && s[i] == QUOTE && After(s, i + 1, ReprAll(t)) == Some(j)
    ensures j < |s| && s[j] == QUOTE && After(s, i, Quoted(t)) == Some(j + 1)
  {
    AfterCons(s, i, QUOTE, ReprAll(t) + [QUOTE]);
    j := Split(s, i + 1, ReprAll(t), [QUOTE]);
    AfterByte(s, j, QUOTE);
  }

  lemma {:induction false} BlanksSkipped(s: bytes, i: nat, w: bytes, j: nat)
    requires Blank(w) && After(s, i, w) == Some(j) && !IsSpace(At(s, j))
    ensures i <= |s| && SkipBlanks(s, i) == j
    decreases |w|
  {
    if w != [] {
      assert IsSpace(w[0]);
      assert Blank(w[1..]);
      BlanksSkipped(s, i + 1, w[1..], j);
    }
  }

  /** Blanks around and between tokens: between two tokens there is at least one. */
  predicate Gaps(gaps: seq<bytes>, n: nat) {
    && |gaps| == n + 1
    && (forall k | 0 <= k <= n :: Blank(gaps[k]))
    && (forall k | 0 < k < n :: gaps[k] != [])
  }

  /** The line of quoted tokens with these gaps. */
  function Line(ts: seq<bytes>, gaps: seq<bytes>): bytes
    requires |gaps| == |ts| + 1
  {
    if ts == [] then gaps[0] else gaps[0] + (Quoted(ts[0]) + Line(ts[1..], gaps[1..]))
  }

  lemma LineStart(ts: seq<bytes>, gaps: seq<bytes>)
    requires Gaps(gaps, |ts|) && (ts != [] ==> gaps[0] != [])
    ensures var l := Line(ts, gaps); l != [] ==> IsSpace(l[0])
  {
  }

  lemma {:induction false} LineSplits(s: bytes, i: nat, ts: seq<bytes>, gaps: seq<bytes>)
    requires Gaps(gaps, |ts|) && After(s, i, Line(ts, gaps)) == Some(|s|)
    ensures i <= |s| && SplitFrom(s, i) == Some(ts)
    decreases |ts|
  {
    if ts == [] {
      BlanksSkipped(s, i, gaps[0], |s|);
    } else {
      var more := Line(ts[1..], gaps[1..]);
      var j := Split(s, i, gaps[0], Quoted(ts[0]) + more);
      var k := Split(s, j, Quoted(ts[0]), more);
      assert Gaps(gaps[1..], |ts[1..]|);
      LineStart(ts[1..], gaps[1..]);
      AfterIsSlice(s, k, more);
      assert more != [] ==> s[k] == more[0];
      QuotedReadsBack(s, j, ts[0], k);
      BlanksSkipped(s, i, gaps[0], j);
      LineSplits(s, k, ts[1..], gaps[1..]);
      assert [ts[0]] + ts[1..] == ts;
    }
  }

  lemma {:induction false} ReprHasNoNul(t: bytes)
    ensures 0 !in ReprAll(t)
  {
    if t != [] {
      ReprHasNoNul(t[1..]);
    }
  }

  lemma {:induction false} LineHasNoNul(ts: seq<bytes>, gaps: seq<bytes>)
    requires Gaps(gaps, |ts|)
    ensures 0 !in Line(ts, gaps)
  {
    if ts != [] {
      ReprHasNoNul(ts[0]);
      assert Gaps(gaps[1..], |ts[1..]|);
      LineHasNoNul(ts[1..], gaps[1..]);
    }
  }

  /** Any strings at all, quoted and joined by blanks, make a C string that is split into exactly them. */
  lemma QuotingRoundTrip(ts: seq<bytes>, gaps: seq<bytes>)
    requires Gaps(gaps, |ts|)
    ensures 0 !in Line(ts, gaps) && SplitFrom(Line(ts, gaps), 0) == Some(ts)
  {
    var s := Line(ts, gaps);
    AfterIsSlice(s, 0, s);
    LineHasNoNul(ts, gaps);
    LineSplits(s, 0, ts, gaps);
  }

  // The functions themselves

  lemma ReprStep(text: bytes, p: bytes, i: nat)
    requires i < |p|
    ensures text + Repr(p[i]) + ReprAll(p[i + 1..]) == text + ReprAll(p[i..])
  {
    assert p[i..][1..] == p[i + 1..];
    Assoc(text, Repr(p[i]), ReprAll(p[i + 1..]));
  }

  lemma {:induction false} ReprLength(t: bytes)
    ensures |ReprAll(t)| <= 4 * |t|
  {
    if t != [] {
      ReprLength(t[1..]);
    }
  }

  /** `sdscatrepr`, for strings that still fit into the address space when every byte takes four. */
  method CatRepr(s: Str, p: bytes)
    requires s.Valid() && s.Len() + 4 * |p| + 2 + SDS_MAX_PREALLOC < SIZES
    modifies s, s.buf
    ensures s.Valid() && s.Contents() == old(s.Contents()) + Quoted(p)
    ensures s.buf == old(s.buf) || fresh(s.buf)
  {
    ghost var was := s.Contents();
    ReprLength(p);
    s.CatLen([QUOTE]);
    ghost var goal := was + [QUOTE] + ReprAll(p);
    assert p[0..] == p;
    var i := 0;
    while i < |p|
      invariant i <= |p| && s.Valid() && (s.buf == old(s.buf) || fresh(s.buf))
      invariant s.Contents() + ReprAll(p[i..]) == goal
    {
      ReprStep(s.Contents(), p, i);
      assert |goal| == s.Len() + |ReprAll(p[i..])|;
      s.CatLen(Repr(p[i]));
      i := i + 1;
    }
    assert s.Contents() + [] == s.Contents();
    s.CatLen([QUOTE]);
    Assoc(was + [QUOTE], ReprAll(p), [QUOTE]);
    Assoc(was, [QUOTE], ReprAll(p) + [QUOTE]);
  }

  /** What the rest of a token gives, depending on the two flags of `sdssplitargs`. */
  function Resume(s: bytes, p: nat, inq: bool, insq: bool): Token
    requires p <= |s|
  {
    if inq then InQuotes(s, p) else if insq then InSingleQuotes(s, p) else Bare(s, p)
  }

  /** The token with the bytes `text` in front. */
  function Prepend(text: bytes, t: Token): Token {
    if t.Bad? then Bad else Token(text + t.text, t.end)
  }

  lemma PrependCons(text: bytes, c: byte, t: Token)
    ensures Prepend(text, Cons(c, t)) == Prepend(text + [c], t)
  {
    if t.Token? {
      Assoc(text, [c], t.text);
    }
  }

  /** A round inside of quotes: an error, the closing quote, or one byte more of the token. */
  method QuotesRound(s: bytes, p: nat, current: Str) returns (ok: bool, done: bool, q: nat)
    requires p <= |s| && current.Valid() && current.Len() + 1 + SDS_MAX_PREALLOC < SIZES
    modifies current, current.buf
    ensures current.Valid() && (current.buf == old(current.buf) || fresh(current.buf)) && p <= q <= |s|
    ensures !ok ==> InQuotes(s, p).Bad?
    ensures ok && done ==> InQuotes(s, p) == Token([], q) && current.Contents() == old(current.Contents())
    ensures ok && !done ==>
      && p < q && current.Len() == old(current.Len()) + 1
      && Prepend(old(current.Contents()), InQuotes(s, p)) == Prepend(current.Contents(), InQuotes(s, q))
  {
    ghost var was := current.Contents();
    ok, done, q := true, false, p;
    if At(s, p) == BACKSLASH && At(s, p + 1) == LOWER_X && IsHex(At(s, p + 2)) && IsHex(At(s, p + 3)) {
      var b: byte := HexDigit(s[p + 2]) * 16 + HexDigit(s[p + 3]);
      current.CatLen([b]);
      q := p + 4;
      PrependCons(was, b, InQuotes(s, q));
    } else if At(s, p) == BACKSLASH && At(s, p + 1) != 0 {
      var c := Unescape(s[p + 1]);
      current.CatLen([c]);
      q := p + 2;
      PrependCons(was, c, InQuotes(s, q));
    } else if At(s, p) == QUOTE {
      ok := At(s, p + 1) == 0 || IsSpace(At(s, p + 1));
      done, q := true, p + 1;
    } else if At(s, p) == 0 {
      ok := false;
    } else {
      current.CatLen([s[p]]);
      q := p + 1;
      PrependCons(was, s[p], InQuotes(s, q));
    }
  }

  /** A round inside of single quotes. */
  method SingleQuotesRound(s: bytes, p: nat, current: Str) returns (ok: bool, done: bool, q: nat)
    requires p <= |s| && current.Valid() && current.Len() + 1 + SDS_MAX_PREALLOC < SIZES
    modifies current, current.buf
    ensures current.Valid() && (current.buf == old(current.buf) || fresh(current.buf)) && p <= q <= |s|
    ensures !ok ==> InSingleQuotes(s, p).Bad?
    ensures ok && done ==> InSingleQuotes(s, p) == Token([], q) && current.Contents() == old(current.Contents())
    ensures ok && !done ==>
      && p < q && current.Len() == old(current.Len()) + 1
      && Prepend(old(current.Contents()), InSingleQuotes(s, p)) == Prepend(current.Contents(), InSingleQuotes(s, q))
  {
    ghost var was := current.Contents();
    ok, done, q := true, false, p;
    if At(s, p) == BACKSLASH && At(s, p + 1) == APOSTROPHE {
      current.CatLen([APOSTROPHE]);
      q := p + 2;
      PrependCons(was, APOSTROPHE, InSingleQuotes(s, q));
    } else if At(s, p) == APOSTROPHE {
      ok := At(s, p + 1) == 0 || IsSpace(At(s, p + 1));
      done, q := true, p + 1;
    } else if At(s, p) == 0 {
      ok := false;
    } else {
      current.CatLen([s[p]]);
      q := p + 1;
      PrependCons(was, s[p], InSingleQuotes(s, q));
    }
  }

  /** A round outside of quotes: the end of the token, a quote that opens, or one byte more. */
  method BareRound(s: bytes, p: nat, current: Str) returns (done: bool, inq: bool, insq: bool, q: nat)
    requires p <= |s| && current.Valid() && current.Len() + 1 + SDS_MAX_PREALLOC < SIZES
    modifies current, current.buf
    ensures current.Valid() && (current.buf == old(current.buf) || fresh(current.buf)) && p <= q <= |s|
    ensures done ==> Bare(s, p) == Token([], q) && current.Contents() == old(current.Contents())
    ensures !done ==>
      && p < q && current.Len() <= old(current.Len()) + 1
      && Prepend(old(current.Contents()), Bare(s, p)) == Prepend(current.Contents(), Resume(s, q, inq, insq))
  {
    var c := At(s, p);
    done, inq, insq, q := EndsToken(c), c == QUOTE, c == APOSTROPHE, if c == 0 then p else p + 1;
    if !done && !inq && !insq {
      PrependCons(current.Contents(), c, Bare(s, q));
      current.CatLen([c]);
    }
  }

  /** The loop of `sdssplitargs` that gets a token. */
  method GetToken(pool: Pool, s: bytes, start: nat) returns (ok: bool, current: Str, end: nat)
    requires start <= |s| && |s| + 1 + SDS_MAX_PREALLOC < SIZES
    modifies pool
    ensures pool.live == old(pool.live) + {current} && current !in old(pool.live)
    ensures fresh(current) && fresh(current.buf) && current.Valid()
    ensures ok == Bare(s, start).Token? && end <= |s|
    ensures ok ==> Bare(s, start) == Token(current.Contents(), end)
  {
    current := pool.Empty();
    var inq, insq, done := false, false, false;
    end := start;
    ok := true;
    PrependNothing(Bare(s, start));
    while ok && !done
      invariant pool.live == old(pool.live) + {current} && current !in old(pool.live)
      invariant start <= end <= |s| && fresh(current) && fresh(current.buf) && current.Valid()
      invariant !done && ok ==> current.Len() <= end - start
      invariant !ok ==> Bare(s, start).Bad?
      invariant ok && !done ==> Prepend(current.Contents(), Resume(s, end, inq, insq)) == Bare(s, start)
      invariant ok && done ==> Token(current.Contents(), end) == Bare(s, start)
      decreases ok, !done, |s| - end
    {
      ghost var was := current.Contents();
      assert |was| == current.Len() && was + [] == was;
      if inq {
        ok, done, end := QuotesRound(s, end, current);
      } else if insq {
        ok, done, end := SingleQuotesRound(s, end, current);
      } else {
        done, inq, insq, end := BareRound(s, end, current);
      }
    }
  }

  lemma PrependNothing(t: Token)
    ensures Prepend([], t) == t
  {
    if t.Token? {
      assert [] + t.text == t.text;
    }
  }

  /** The tokens have the contents `ts`. */
  ghost predicate Holds(vector: seq<Str>, ts: seq<bytes>)
    reads vector, set t | t in vector :: t.buf
  {
    |vector| == |ts| && forall k | 0 <= k < |ts| :: vector[k].Valid() && vector[k].Contents() == ts[k]
  }

  /** What is left to be split, with the tokens found so far in front. */
  function Found(ts: seq<bytes>, r: Option<seq<bytes>>): Option<seq<bytes>> {
    if r.None? then None else Some(ts + r.value)
  }

  lemma FoundOne(ts: seq<bytes>, s: bytes, p: nat)
    requires p <= |s| && !IsSpace(At(s, p))
    ensures At(s, p) == 0 ==> Found(ts, SplitFrom(s, p)) == Some(ts)
    ensures At(s, p) != 0 && Bare(s, p).Bad? ==> SplitFrom(s, p).None?
    ensures At(s, p) != 0 && Bare(s, p).Token? ==>
      Found(ts, SplitFrom(s, p)) == Found(ts + [Bare(s, p).text], SplitFrom(s, Bare(s, p).end))
  {
    assert SkipBlanks(s, p) == p;
    if At(s, p) != 0 && Bare(s, p).Token? {
      var t := Bare(s, p);
      var rest := SplitFrom(s, t.end);
      if rest.Some? {
        assert ts + ([t.text] + rest.value) == ts + [t.text] + rest.value;
      }
    }
    assert ts + [] == ts;
  }

  /** Where the loop of `sdssplitargs` stands: an error, a position to go on from or the end of the line. */
  ghost predicate ArgsStand(line: bytes, p: nat, ok: bool, more: bool, ts: seq<bytes>)
    requires p <= |line|
  {
    if !ok then SplitFrom(line, 0).None?
    else if more then Found(ts, SplitFrom(line, p)) == SplitFrom(line, 0)
    else SplitFrom(line, 0) == Some(ts)
  }

  lemma ArgsStep(line: bytes, ts: seq<bytes>, p: nat, ok: bool, more: bool, next: nat, read: seq<bytes>)
    requires p <= |line| && next <= |line| && !IsSpace(At(line, p)) && ArgsStand(line, p, true, true, ts)
    requires if At(line, p) == 0 then ok && !more && read == ts
             else
               more && ok == Bare(line, p).Token? &&
               (ok ==> next == Bare(line, p).end && read == ts + [Bare(line, p).text])
    ensures ArgsStand(line, next, ok, more, read) == true
  {
    FoundOne(ts, line, p);
  }

  method Blanks(s: bytes, i: nat) returns (j: nat)
    requires i <= |s|
    ensures j == SkipBlanks(s, i) && SplitFrom(s, j) == SplitFrom(s, i)
  {
    j := i;
    while At(s, j) != 0 && IsSpace(At(s, j))
      invariant i <= j <= |s| && SkipBlanks(s, j) == SkipBlanks(s, i)
      decreases |s| - j
    {
      j := j + 1;
    }
    assert SkipBlanks(s, j) == j;
  }

  function Strings(vector: seq<Str>): set<Str> {
    set t | t in vector
  }

  /** The strings in use are those that were in use before and the tokens, none of them twice. */
  ghost predicate Owns(live: set<Str>, before: set<Str>, vector: seq<Str>) {
    && live == before + Strings(vector)
    && (forall t <- vector :: t !in before)
    && (forall i, j | 0 <= i < j < |vector| :: vector[i] != vector[j])
  }

  lemma OwnsOneMore(live: set<Str>, before: set<Str>, vector: seq<Str>, t: Str)
    requires Owns(live, before, vector) && t !in live
    ensures Owns(live + {t}, before, vector + [t]) == true
  {
    assert Strings(vector + [t]) == Strings(vector) + {t};
  }

  lemma HoldsOneMore(vector: seq<Str>, ts: seq<bytes>, t: Str)
    requires Holds(vector, ts) && t.Valid()
    ensures Holds(vector + [t], ts + [t.Contents()]) == true
  {
  }

  /** The error label of `sdssplitargs`: the tokens are freed, the last one first, and then the one that
      could not be finished. */
  method FreeAll(pool: Pool, vector: seq<Str>, current: Str, ghost before: set<Str>, ghost live: set<Str>)
    requires Owns(live, before, vector) && current !in live && pool.live == live + {current}
    modifies pool
    ensures pool.live == before
  {
    var argc := |vector|;
    assert vector[..argc] == vector;
    while argc > 0
      invariant argc <= |vector| && pool.live == before + Strings(vector[..argc]) + {current}
    {
      argc := argc - 1;
      assert vector[..argc + 1] == vector[..argc] + [vector[argc]];
      pool.Free(vector[argc]);
    }
    pool.Free(current);
  }

  /** A round of the loop of `sdssplitargs`. */
  method NextArg(pool: Pool, line: bytes, p: nat, vector: seq<Str>, ghost ts: seq<bytes>, ghost before: set<Str>)
    returns (ok: bool, more: bool, next: nat, tokens: seq<Str>, ghost read: seq<bytes>)
    requires p <= |line| && |line| + 1 + SDS_MAX_PREALLOC < SIZES && ArgsStand(line, p, true, true, ts)
    requires Holds(vector, ts) && Owns(pool.live, before, vector)
    modifies pool
    ensures next <= |line| && ArgsStand(line, next, ok, more, read) == true && (ok && more ==> p < next)
    ensures Holds(tokens, read) == true && Owns(pool.live, before, tokens) == true && (!ok ==> tokens == [])
    ensures forall t <- tokens :: t in vector || (fresh(t) && fresh(t.buf))
  {
    var at := Blanks(line, p);
    ok, more, next, tokens, read := true, At(line, at) != 0, at, vector, ts;
    if more {
      ghost var live := pool.live;
      var current: Str;
      ok, current, next := GetToken(pool, line, at);
      if ok {
        HoldsOneMore(vector, ts, current);
        OwnsOneMore(live, before, vector, current);
        tokens, read := vector + [current], ts + [current.Contents()];
      } else {
        FreeAll(pool, vector, current, before, live);
        tokens, read := [], [];
      }
    }
    ArgsStep(line, ts, at, ok, more, next, read);
  }

  /** `sdssplitargs`, for lines that still fit into the address space with what appending keeps free. On
      an error, no string is left behind. */
  method SplitArgs(pool: Pool, line: bytes) returns (ok: bool, vector: seq<Str>)
    requires |line| + 1 + SDS_MAX_PREALLOC < SIZES
    modifies pool
    ensures ok == SplitFrom(line, 0).Some?
    ensures ok ==> Holds(vector, SplitFrom(line, 0).value)
    ensures ok ==> pool.live == old(pool.live) + Strings(vector)
    ensures !ok ==> pool.live == old(pool.live) && vector == []
    ensures forall t <- vector :: fresh(t) && fresh(t.buf)
  {
    var p, more := 0, true;
    ghost var ts: seq<bytes>, before := [], pool.live;
    ok, vector := true, [];
    assert SplitFrom(line, 0).Some? ==> [] + SplitFrom(line, 0).value == SplitFrom(line, 0).value;
    while ok && more
      invariant 0 <= p <= |line| && ArgsStand(line, p, ok, more, ts) == true
      invariant Holds(vector, ts) == true && Owns(pool.live, before, vector) == true && (!ok ==> vector == [])
      invariant forall t <- vector :: fresh(t) && fresh(t.buf)
      decreases ok, more, |line| - p
    {
      ok, more, p, vector, ts := NextArg(pool, line, p, vector, ts, before);
    }
  }
}
