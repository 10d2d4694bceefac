/** The lines that `sdssplitargs` takes apart, as a grammar: which words they hold, how these are written
    and what they mean. */
module SdsLines {
  import opened Bytes
  import opened SdsQuoting

  // The grammar

  /** A byte in "quotes": itself, behind a backslash, or as two hexadecimal digits, each in either case. */
  datatype Piece =
    | Plain(c: byte)
    | Escape(e: byte)
    | Hex(high: nat, highUpper: bool, low: nat, lowUpper: bool)

  function DigitText(d: nat, upper: bool): byte
    requires d < 16
  {
    if upper then UpperHex(d) else LowerHex(d)
  }

  predicate IsPiece(p: Piece) {
    match p
    case Plain(c) => c != 0x22 && c != 0x5C && c != 0
    case Escape(e) => e != 0
    case Hex(h, _, l, _) => h < 16 && l < 16
  }

  function PieceText(p: Piece): bytes
    requires IsPiece(p)
  {
    match p
    case Plain(c) => [c]
    case Escape(e) => [0x5C, e]
    case Hex(h, hu, l, lu) => [0x5C, 0x78, DigitText(h, hu), DigitText(l, lu)]
  }

  /** The letters n, r, t, b and a stand for control characters, any other byte for itself. */
  function PieceMeaning(p: Piece): byte
    requires IsPiece(p)
  {
    match p
    case Plain(c) => c
    case Escape(e) =>
      if e == 'n' as int then 10 else if e == 'r' as int then 13 else if e == 't' as int then 9
      else if e == 'b' as int then 8 else if e == 'a' as int then 7 else e
    case Hex(h, _, l, _) => 16 * h + l
  }

  predicate TwoDigits(t: bytes) {
    |t| >= 2 && IsHex(t[0]) && IsHex(t[1])
  }

  predicate ArePieces(ps: seq<Piece>) {
    forall p <- ps :: IsPiece(p)
  }

  function PiecesText(ps: seq<Piece>): bytes
    requires ArePieces(ps)
  {
    if ps == [] then [] else PieceText(ps[0]) + PiecesText(ps[1..])
  }

  function PiecesMeaning(ps: seq<Piece>): bytes
    requires ArePieces(ps)
  {
    if ps == [] then [] else [PieceMeaning(ps[0])] + PiecesMeaning(ps[1..])
  }

  /** An escaped x is not followed by two digits. */
  predicate PiecesDerive(ps: seq<Piece>) {
    && ArePieces(ps)
    && (ps != [] ==> PiecesDerive(ps[1..]) && (ps[0] == Escape(0x78) ==> !TwoDigits(PiecesText(ps[1..]))))
  }

  /** In 'single quotes' only the apostrophe is escaped. */
  function SingleText(t: bytes): bytes {
    if t == [] then [] else (if t[0] == 0x27 then [0x5C, 0x27] else [t[0]]) + SingleText(t[1..])
  }

  /** A backslash at the end would take the closing quote. */
  predicate SingleDerives(t: bytes) {
    0 !in t && (t != [] ==> t[|t| - 1] != 0x5C)
  }

  /** A word begins without quotes, and may end with a part in quotes. */
  datatype Tail = NoTail | Double(pieces: seq<Piece>) | Single(text: bytes)

  datatype Word = Word(bare: bytes, tail: Tail)

  /** What the part without quotes may hold. A vertical tab or a form feed is a blank only in front of a
      word. */
  predicate IsBare(c: byte) {
    c != 0x20 && c != 0x0A && c != 0x0D && c != 0x09 && c != 0 && c != 0x22 && c != 0x27
  }

  predicate WordDerives(w: Word) {
    && (forall k | 0 <= k < |w.bare| :: IsBare(w.bare[k]))
    && (if w.bare == [] then w.tail != NoTail else w.bare[0] != 0x0B && w.bare[0] != 0x0C)
    && (w.tail.Double? ==> PiecesDerive(w.tail.pieces))
    && (w.tail.Single? ==> SingleDerives(w.tail.text))
  }

  function TailText(t: Tail): bytes
    requires t.Double? ==> PiecesDerive(t.pieces)
  {
    match t
    case NoTail => []
    case Double(ps) => [0x22] + (PiecesText(ps) + [0x22])
    case Single(u) => [0x27] + (SingleText(u) + [0x27])
  }

  function TailMeaning(t: Tail): bytes
    requires t.Double? ==> PiecesDerive(t.pieces)
  {
    match t
    case NoTail => []
    case Double(ps) => PiecesMeaning(ps)
    case Single(u) => u
  }

  function WordText(w: Word): bytes
    requires WordDerives(w)
  {
    w.bare + TailText(w.tail)
  }

  function WordMeaning(w: Word): bytes
    requires WordDerives(w)
  {
    w.bare + TailMeaning(w.tail)
  }

  /** Words with blanks around them and between them. Behind a word without quotes, the first blank is
      none of the two that such a word may hold. */
  predicate LineDerives(ws: seq<Word>, gaps: seq<bytes>) {
    && Gaps(gaps, |ws|) && (forall w <- ws :: WordDerives(w))
    && (forall k | 0 <= k < |ws| :: ws[k].tail == NoTail && gaps[k + 1] != [] ==> gaps[k + 1][0] != 0x0B && gaps[k + 1][0] != 0x0C)
  }

  function LineText(ws: seq<Word>, gaps: seq<bytes>): bytes
    requires LineDerives(ws, gaps)
  {
    if ws == [] then gaps[0]
    else
      LessDerives(ws, gaps);
      gaps[0] + (WordText(ws[0]) + LineText(ws[1..], gaps[1..]))
  }

  function LineMeaning(ws: seq<Word>): seq<bytes>
    requires forall w <- ws :: WordDerives(w)
  {
    if ws == [] then [] else [WordMeaning(ws[0])] + LineMeaning(ws[1..])
  }

  lemma LessDerives(ws: seq<Word>, gaps: seq<bytes>)
    requires LineDerives(ws, gaps) && ws != []
    ensures LineDerives(ws[1..], gaps[1..])
  {
  }

  /** The line is one of words with these meanings. */
  ghost predicate Means(s: bytes, ts: seq<bytes>) {
    exists ws, gaps :: LineDerives(ws, gaps) && LineText(ws, gaps) == s && LineMeaning(ws) == ts
  }

  // Everything that is written so is read

  lemma DigitIsRead(d: nat, upper: bool)
    requires d < 16
    ensures IsHex(DigitText(d, upper)) && HexDigit(DigitText(d, upper)) == d
  {
  }

  lemma DigitIsWritten(c: byte) returns (d: nat, upper: bool)
    requires IsHex(c)
    ensures d < 16 && DigitText(d, upper) == c && HexDigit(c) == d
  {
    d, upper := HexDigit(c), c < 0x61;
  }

  /** What closes a quoted part at `k`. */
  function Closed(s: bytes, k: nat, t: bytes): Token
    requires k < |s|
  {
    if At(s, k + 1) == 0 || IsSpace(At(s, k + 1)) then Token(t, k + 1) else Bad
  }

  lemma ConsClosed(s: bytes, k: nat, c: byte, t: bytes)
    requires k < |s|
    ensures Cons(c, Closed(s, k, t)) == Closed(s, k, [c] + t)
  {
  }

  lemma PieceComplete(s: bytes, i: nat, p: Piece, j: nat)
    requires IsPiece(p) && After(s, i, PieceText(p)) == Some(j)
    requires p == Escape(0x78) ==> !(IsHex(At(s, j)) && j < |s| && IsHex(At(s, j + 1)))
    ensures i < j <= |s| && InQuotes(s, i) == Cons(PieceMeaning(p), InQuotes(s, j))
  {
    match p
    case Plain(c) => AfterByte(s, i, c);
    case Escape(e) => AfterTwo(s, i, 0x5C, e);
    case Hex(h, hu, l, lu) =>
      AfterFour(s, i, 0x5C, 0x78, DigitText(h, hu), DigitText(l, lu));
      DigitIsRead(h, hu);
      DigitIsRead(l, lu);
  }

  lemma DigitsBehind(s: bytes, j: nat, t: bytes, k: nat)
    requires After(s, j, t) == Some(k) && At(s, k) == 0x22 && !TwoDigits(t)
    ensures !(IsHex(At(s, j)) && j < |s| && IsHex(At(s, j + 1)))
  {
    AfterIsSlice(s, j, t);
    if |t| >= 1 {
      assert t[0] == s[j..k][0] == s[j];
    }
    if |t| >= 2 {
      assert t[1] == s[j..k][1] == s[j + 1];
    }
  }

  lemma {:induction false} PiecesComplete(s: bytes, i: nat, ps: seq<Piece>, k: nat)
    requires PiecesDerive(ps) && After(s, i, PiecesText(ps)) == Some(k) && At(s, k) == 0x22
    ensures InQuotes(s, i) == Closed(s, k, PiecesMeaning(ps))
    decreases |ps|
  {
    if ps != [] {
      var j := Split(s, i, PieceText(ps[0]), PiecesText(ps[1..]));
      if ps[0] == Escape(0x78) {
        DigitsBehind(s, j, PiecesText(ps[1..]), k);
      }
      PieceComplete(s, i, ps[0], j);
      PiecesComplete(s, j, ps[1..], k);
      ConsClosed(s, k, PieceMeaning(ps[0]), PiecesMeaning(ps[1..]));
    }
  }

  lemma {:induction false} SingleComplete(s: bytes, i: nat, t: bytes, k: nat)
    requires SingleDerives(t) && After(s, i, SingleText(t)) == Some(k) && At(s, k) == 0x27
    ensures InSingleQuotes(s, i) == Closed(s, k, t)
    decreases |t|
  {
    if t != [] {
      var head: bytes := if t[0] == 0x27 then [0x5C, 0x27] else [t[0]];
      var j := Split(s, i, head, SingleText(t[1..]));
      assert t == [t[0]] + t[1..] && SingleDerives(t[1..]);
      SingleComplete(s, j, t[1..], k);
      if t[0] == 0x27 {
        AfterTwo(s, i, 0x5C, 0x27);
      } else {
        AfterByte(s, i, t[0]);
        if t[0] == 0x5C {
          FirstOfSingle(s, j, t[1..], k);
        }
      }
      ConsClosed(s, k, t[0], t[1..]);
    }
  }

  /** A text in single quotes begins with an apostrophe only if it is at its end. */
  lemma FirstOfSingle(s: bytes, j: nat, t: bytes, k: nat)
    requires After(s, j, SingleText(t)) == Some(k) && t != []
    ensures At(s, j) != 0x27
  {
    if t[0] == 0x27 {
      var l := Split(s, j, [0x5C, 0x27], SingleText(t[1..]));
      AfterTwo(s, j, 0x5C, 0x27);
    } else {
      var l := Split(s, j, [t[0]], SingleText(t[1..]));
      AfterByte(s, j, t[0]);
    }
  }

  lemma QuotesAt(s: bytes, i: nat, q: byte, u: bytes) returns (j: nat)
    requires After(s, i, [q] + (u + [q])).Some?
    ensures i < j < |s| && s[i] == q && s[j] == q && After(s, i + 1, u) == Some(j)
    ensures After(s, i, [q] + (u + [q])) == Some(j + 1)
  {
    AfterCons(s, i, q, u + [q]);
    j := Split(s, i + 1, u, [q]);
    AfterByte(s, j, q);
  }

  lemma ClosedHere(s: bytes, k: nat, t: bytes)
    requires k < |s| && (At(s, k + 1) == 0 || IsSpace(At(s, k + 1)))
    ensures Closed(s, k, t) == Token(t, k + 1)
  {
  }

  lemma DoubleComplete(s: bytes, i: nat, ps: seq<Piece>, k: nat)
    requires PiecesDerive(ps) && After(s, i, [0x22] + (PiecesText(ps) + [0x22])) == Some(k)
    requires At(s, k) == 0 || IsSpace(At(s, k))
    ensures i < |s| && s[i] == 0x22 && InQuotes(s, i + 1) == Token(PiecesMeaning(ps), k)
  {
    var j := QuotesAt(s, i, 0x22, PiecesText(ps));
    PiecesComplete(s, i + 1, ps, j);
    ClosedHere(s, j, PiecesMeaning(ps));
  }

  lemma SingleTailComplete(s: bytes, i: nat, u: bytes, k: nat)
    requires SingleDerives(u) && After(s, i, [0x27] + (SingleText(u) + [0x27])) == Some(k)
    requires At(s, k) == 0 || IsSpace(At(s, k))
    ensures i < |s| && s[i] == 0x27 && InSingleQuotes(s, i + 1) == Token(u, k)
  {
    var j := QuotesAt(s, i, 0x27, SingleText(u));
    SingleComplete(s, i + 1, u, j);
    ClosedHere(s, j, u);
  }

  lemma TailComplete(s: bytes, i: nat, t: Tail, k: nat)
    requires t != NoTail && WordDerives(Word([], t)) && After(s, i, TailText(t)) == Some(k)
    requires At(s, k) == 0 || IsSpace(At(s, k))
    ensures i < |s| && Bare(s, i) == Token(TailMeaning(t), k)
  {
    if t.Double? {
      DoubleComplete(s, i, t.pieces, k);
    } else {
      SingleTailComplete(s, i, t.text, k);
    }
  }

  lemma {:induction false} BareComplete(s: bytes, i: nat, bare: bytes, j: nat)
    requires (forall k | 0 <= k < |bare| :: IsBare(bare[k])) && After(s, i, bare) == Some(j) && Bare(s, j).Token?
    ensures i <= |s| && Bare(s, i) == Token(bare + Bare(s, j).text, Bare(s, j).end)
    decreases |bare|
  {
    if bare == [] {
      assert [] + Bare(s, j).text == Bare(s, j).text;
    } else {
      assert IsBare(bare[0]);
      BareComplete(s, i + 1, bare[1..], j);
      assert bare + Bare(s, j).text == [bare[0]] + (bare[1..] + Bare(s, j).text);
    }
  }

  /** A word is read up to its end, and over the blank behind it if it has no quotes. */
  lemma WordComplete(s: bytes, i: nat, w: Word, k: nat)
    requires WordDerives(w) && After(s, i, WordText(w)) == Some(k)
    requires if w.tail == NoTail then EndsToken(At(s, k)) else At(s, k) == 0 || IsSpace(At(s, k))
    ensures i <= |s| && Bare(s, i) == Token(WordMeaning(w), if w.tail == NoTail && At(s, k) != 0 then k + 1 else k)
  {
    var j := Split(s, i, w.bare, TailText(w.tail));
    if w.tail != NoTail {
      TailComplete(s, j, w.tail, k);
    } else {
      assert Bare(s, j) == Token([], if At(s, k) != 0 then k + 1 else k);
    }
    BareComplete(s, i, w.bare, j);
  }

  lemma SplitSkips(s: bytes, k: nat)
    requires k <= |s| && IsSpace(At(s, k))
    ensures SplitFrom(s, k) == SplitFrom(s, k + 1)
  {
  }

  lemma WordStarts(s: bytes, j: nat, w: Word)
    requires WordDerives(w) && After(s, j, WordText(w)).Some?
    ensures j < |s| && s[j] != 0 && !IsSpace(s[j])
  {
    var k := Split(s, j, w.bare, TailText(w.tail));
    if w.bare != [] {
      assert w.bare == [w.bare[0]] + w.bare[1..] && IsBare(w.bare[0]);
      AfterCons(s, j, w.bare[0], w.bare[1..]);
    } else if w.tail.Double? {
      AfterCons(s, j, 0x22, PiecesText(w.tail.pieces) + [0x22]);
    } else {
      AfterCons(s, j, 0x27, SingleText(w.tail.text) + [0x27]);
    }
  }

  /** What stands behind the first word of a line. */
  lemma BehindWord(s: bytes, k: nat, ws: seq<Word>, gaps: seq<bytes>)
    requires LineDerives(ws, gaps) && ws != [] && LineDerives(ws[1..], gaps[1..])
    requires After(s, k, LineText(ws[1..], gaps[1..])) == Some(|s|)
    ensures k <= |s| && (k < |s| ==> IsSpace(s[k]) && (ws[0].tail == NoTail ==> EndsToken(s[k])))
  {
    var gap := gaps[1];
    var rest: bytes := if |ws| == 1 then [] else WordText(ws[1]) + LineText(ws[1..][1..], gaps[1..][1..]);
    assert LineText(ws[1..], gaps[1..]) == gap + rest by {
      assert gap + [] == gap;
    }
    var l := Split(s, k, gap, rest);
    if gap != [] {
      assert gap == [gap[0]] + gap[1..] && IsSpace(gap[0]);
      AfterCons(s, k, gap[0], gap[1..]);
    }
  }

  lemma {:induction false} LineComplete(s: bytes, i: nat, ws: seq<Word>, gaps: seq<bytes>)
    requires LineDerives(ws, gaps) && After(s, i, LineText(ws, gaps)) == Some(|s|)
    ensures i <= |s| && SplitFrom(s, i) == Some(LineMeaning(ws))
    decreases |ws|
  {
    if ws == [] {
      BlanksSkipped(s, i, gaps[0], |s|);
    } else {
      LessDerives(ws, gaps);
      var w, more := ws[0], LineText(ws[1..], gaps[1..]);
      var j := Split(s, i, gaps[0], WordText(w) + more);
      var k := Split(s, j, WordText(w), more);
      WordStarts(s, j, w);
      BehindWord(s, k, ws, gaps);
      WordComplete(s, j, w, k);
      BlanksSkipped(s, i, gaps[0], j);
      LineComplete(s, k, ws[1..], gaps[1..]);
      if k < |s| {
        SplitSkips(s, k);
      }
    }
  }

  // Everything that is read is written so

  lemma HexSound(s: bytes, i: nat) returns (p: Piece)
    requires i + 4 <= |s| && s[i] == 0x5C && s[i + 1] == 0x78 && IsHex(s[i + 2]) && IsHex(s[i + 3])
    ensures p.Hex? && IsPiece(p) && After(s, i, PieceText(p)) == Some(i + 4)
    ensures InQuotes(s, i) == Cons(PieceMeaning(p), InQuotes(s, i + 4))
  {
    var h, hu := DigitIsWritten(s[i + 2]);
    var l, lu := DigitIsWritten(s[i + 3]);
    p := Hex(h, hu, l, lu);
    AfterIsSlice(s, i, PieceText(p));
    assert s[i..i + 4] == PieceText(p);
  }

  lemma PieceSound(s: bytes, i: nat) returns (p: Piece, j: nat)
    requires i <= |s| && InQuotes(s, i).Token? && At(s, i) != 0x22
    ensures IsPiece(p) && After(s, i, PieceText(p)) == Some(j) && i < j <= |s|
    ensures InQuotes(s, i) == Cons(PieceMeaning(p), InQuotes(s, j))
    ensures p == Escape(0x78) ==> !(j + 2 <= |s| && IsHex(s[j]) && IsHex(s[j + 1]))
  {
    var c := At(s, i);
    if c == 0x5C && At(s, i + 1) == 0x78 && IsHex(At(s, i + 2)) && IsHex(At(s, i + 3)) {
      p := HexSound(s, i);
      j := i + 4;
    } else if c == 0x5C {
      p, j := Escape(s[i + 1]), i + 2;
      AfterTwo(s, i, 0x5C, s[i + 1]);
    } else {
      p, j := Plain(c), i + 1;
      AfterByte(s, i, c);
    }
  }

  lemma DigitsAhead(s: bytes, j: nat, t: bytes, k: nat)
    requires After(s, j, t) == Some(k) && TwoDigits(t)
    ensures j + 2 <= |s| && IsHex(s[j]) && IsHex(s[j + 1])
  {
    AfterIsSlice(s, j, t);
    assert t[0] == s[j..k][0] == s[j] && t[1] == s[j..k][1] == s[j + 1];
  }

  lemma {:induction false} PiecesSound(s: bytes, i: nat) returns (ps: seq<Piece>, k: nat)
    requires i <= |s| && InQuotes(s, i).Token?
    ensures PiecesDerive(ps) && After(s, i, PiecesText(ps)) == Some(k) && k < |s| && s[k] == 0x22
    ensures InQuotes(s, i) == Closed(s, k, PiecesMeaning(ps))
    decreases |s| - i
  {
    if At(s, i) == 0x22 {
      ps, k := [], i;
    } else {
      var p, j := PieceSound(s, i);
      var more: seq<Piece>;
      more, k := PiecesSound(s, j);
      ps := [p] + more;
      assert ps[1..] == more;
      if TwoDigits(PiecesText(more)) {
        DigitsAhead(s, j, PiecesText(more), k);
      }
      Bytes.Join(s, i, PieceText(p), j, PiecesText(more));
      ConsClosed(s, k, PieceMeaning(p), PiecesMeaning(more));
    }
  }

  lemma {:induction false} SingleSound(s: bytes, i: nat) returns (t: bytes, k: nat)
    requires i <= |s| && InSingleQuotes(s, i).Token?
    ensures SingleDerives(t) && After(s, i, SingleText(t)) == Some(k) && k < |s| && s[k] == 0x27
    ensures InSingleQuotes(s, i) == Closed(s, k, t)
    decreases |s| - i
  {
    var c := At(s, i);
    if c == 0x27 {
      t, k := [], i;
    } else {
      var escaped := c == 0x5C && At(s, i + 1) == 0x27;
      var head: bytes := if escaped then [0x5C, 0x27] else [c];
      var d: byte := if escaped then 0x27 else c;
      AfterTwo(s, i, 0x5C, 0x27);
      AfterByte(s, i, c);
      var more: bytes;
      more, k := SingleSound(s, i + |head|);
      t := [d] + more;
      assert t[1..] == more;
      Bytes.Join(s, i, head, i + |head|, SingleText(more));
      ConsClosed(s, k, d, more);
    }
  }

  lemma {:induction false} BareSound(s: bytes, i: nat) returns (bare: bytes, j: nat)
    requires i <= |s| && Bare(s, i).Token?
    ensures (forall k | 0 <= k < |bare| :: IsBare(bare[k])) && After(s, i, bare) == Some(j) && j <= |s| && !IsBare(At(s, j))
    ensures Bare(s, j).Token? && Bare(s, i) == Token(bare + Bare(s, j).text, Bare(s, j).end)
    ensures bare != [] <==> IsBare(At(s, i))
    ensures bare != [] ==> bare[0] == At(s, i)
    decreases |s| - i
  {
    if IsBare(At(s, i)) {
      var more: bytes;
      more, j := BareSound(s, i + 1);
      bare := [s[i]] + more;
      AfterCons(s, i, s[i], more);
      assert bare + Bare(s, j).text == [s[i]] + (more + Bare(s, j).text);
    } else {
      bare, j := [], i;
      assert [] + Bare(s, j).text == Bare(s, j).text;
    }
  }

  lemma DoubleSound(s: bytes, j: nat) returns (ps: seq<Piece>, k: nat)
    requires j < |s| && s[j] == 0x22 && InQuotes(s, j + 1).Token?
    ensures PiecesDerive(ps) && After(s, j, TailText(Double(ps))) == Some(k) && j < k <= |s|
    ensures InQuotes(s, j + 1) == Closed(s, k - 1, PiecesMeaning(ps))
  {
    var l: nat;
    ps, l := PiecesSound(s, j + 1);
    k := l + 1;
    AfterByte(s, l, 0x22);
    Bytes.Join(s, j + 1, PiecesText(ps), l, [0x22]);
    AfterCons(s, j, 0x22, PiecesText(ps) + [0x22]);
  }

  lemma SingleTailSound(s: bytes, j: nat) returns (u: bytes, k: nat)
    requires j < |s| && s[j] == 0x27 && InSingleQuotes(s, j + 1).Token?
    ensures SingleDerives(u) && After(s, j, TailText(Single(u))) == Some(k) && j < k <= |s|
    ensures InSingleQuotes(s, j + 1) == Closed(s, k - 1, u)
  {
    var l: nat;
    u, l := SingleSound(s, j + 1);
    k := l + 1;
    AfterByte(s, l, 0x27);
    Bytes.Join(s, j + 1, SingleText(u), l, [0x27]);
    AfterCons(s, j, 0x27, SingleText(u) + [0x27]);
  }

  lemma TailSound(s: bytes, j: nat) returns (t: Tail, k: nat)
    requires j <= |s| && 0 !in s && Bare(s, j).Token? && !IsBare(At(s, j))
    ensures (t.Double? ==> PiecesDerive(t.pieces)) && (t.Single? ==> SingleDerives(t.text))
    ensures After(s, j, TailText(t)) == Some(k) && j <= k <= |s| && (t == NoTail ==> EndsToken(At(s, j)))
    ensures Bare(s, j) == Token(TailMeaning(t), if t == NoTail && k < |s| then k + 1 else k)
    ensures k < |s| ==> IsSpace(s[k]) && (t == NoTail ==> EndsToken(s[k]))
  {
    if At(s, j) == 0x22 {
      var ps: seq<Piece>;
      ps, k := DoubleSound(s, j);
      t := Double(ps);
      assert k < |s| ==> s[k] in s;
    } else if At(s, j) == 0x27 {
      var u: bytes;
      u, k := SingleTailSound(s, j);
      t := Single(u);
      assert k < |s| ==> s[k] in s;
    } else {
      t, k := NoTail, j;
      assert k < |s| ==> s[k] in s;
    }
  }

  lemma WordSound(s: bytes, i: nat) returns (w: Word, k: nat)
    requires i < |s| && 0 !in s && !IsSpace(s[i]) && Bare(s, i).Token?
    ensures WordDerives(w) && After(s, i, WordText(w)) == Some(k) && i < k <= |s|
    ensures Bare(s, i) == Token(WordMeaning(w), if w.tail == NoTail && k < |s| then k + 1 else k)
    ensures k < |s| ==> IsSpace(s[k]) && (w.tail == NoTail ==> EndsToken(s[k]))
  {
    var bare, j := BareSound(s, i);
    var t: Tail;
    t, k := TailSound(s, j);
    w := Word(bare, t);
    Bytes.Join(s, i, bare, j, TailText(t));
    AfterIsSlice(s, i, WordText(w));
    if bare == [] {
      assert i == j;
    }
  }

  lemma {:induction false} GapSound(s: bytes, i: nat)
    requires i <= |s|
    ensures Blank(s[i..SkipBlanks(s, i)]) && After(s, i, s[i..SkipBlanks(s, i)]) == Some(SkipBlanks(s, i))
    ensures i < |s| && IsSpace(s[i]) ==> SkipBlanks(s, i) > i
    decreases |s| - i
  {
    var j := SkipBlanks(s, i);
    AfterSelf(s, i, j);
    if IsSpace(At(s, i)) {
      GapSound(s, i + 1);
      assert s[i..j] == [s[i]] + s[i + 1..j];
    }
  }

  lemma OneMoreWord(w: Word, gap: bytes, ws: seq<Word>, gaps: seq<bytes>)
    requires WordDerives(w) && Blank(gap) && LineDerives(ws, gaps) && (ws != [] ==> gaps[0] != [])
    requires w.tail == NoTail && gaps[0] != [] ==> gaps[0][0] != 0x0B && gaps[0][0] != 0x0C
    ensures LineDerives([w] + ws, [gap] + gaps)
    ensures LineText([w] + ws, [gap] + gaps) == gap + (WordText(w) + LineText(ws, gaps))
    ensures LineMeaning([w] + ws) == [WordMeaning(w)] + LineMeaning(ws)
  {
    assert ([w] + ws)[1..] == ws && ([gap] + gaps)[1..] == gaps;
  }

  lemma {:induction false} LineSound(s: bytes, i: nat) returns (ws: seq<Word>, gaps: seq<bytes>)
    requires i <= |s| && 0 !in s && SplitFrom(s, i).Some?
    ensures LineDerives(ws, gaps) && After(s, i, LineText(ws, gaps)) == Some(|s|) && gaps[0] == s[i..SkipBlanks(s, i)]
    ensures LineMeaning(ws) == SplitFrom(s, i).value
    decreases |s| - i
  {
    var j := SkipBlanks(s, i);
    var gap := s[i..j];
    GapSound(s, i);
    if j == |s| {
      ws, gaps := [], [gap];
    } else {
      assert s[j] in s;
      var w, k := WordSound(s, j);
      if k < |s| {
        SplitSkips(s, k);
      }
      var more, rest := LineSound(s, k);
      GapSound(s, k);
      ws, gaps := [w] + more, [gap] + rest;
      OneMoreWord(w, gap, more, rest);
      Bytes.Join(s, j, WordText(w), k, LineText(more, rest));
      Bytes.Join(s, i, gap, j, WordText(w) + LineText(more, rest));
    }
  }

  // The main result

  /** A line is split into exactly these strings exactly if it is one of words with these meanings. */
  lemma SplitIsGrammar(s: bytes, ts: seq<bytes>)
    requires 0 !in s
    ensures SplitFrom(s, 0) == Some(ts) <==> Means(s, ts)
  {
    if SplitFrom(s, 0) == Some(ts) {
      var ws, gaps := LineSound(s, 0);
      AfterIsSlice(s, 0, LineText(ws, gaps));
      assert s[0..|s|] == s;
    }
    if ws, gaps :| LineDerives(ws, gaps) && LineText(ws, gaps) == s && LineMeaning(ws) == ts {
      AfterIsSlice(s, 0, s);
      assert s[0..|s|] == s;
      LineComplete(s, 0, ws, gaps);
    }
  }

  /** `isspace` in the C locale, and the digits in both cases. */
  lemma SpacesAndDigits(c: byte)
    ensures IsSpace(c) <==> c in [0x09, 0x0A, 0x0B, 0x0C, 0x0D, 0x20]
    ensures IsHex(c) <==> exists d: nat | d < 16 :: c == LowerHex(d) || c == UpperHex(d)
  {
    if IsHex(c) {
      var d, upper := DigitIsWritten(c);
    }
    forall d: nat | d < 16
      ensures IsHex(LowerHex(d)) && IsHex(UpperHex(d))
    {
      DigitIsRead(d, true);
      DigitIsRead(d, false);
    }
  }

  /** What `sdscatrepr` writes for a byte: itself if it is printable, but a backslash in front of the
      quote and of the backslash; an escape with a letter for five control characters; and two
      lower-case digits for all others. */
  lemma QuotedByte(c: byte)
    ensures c == 0x22 || c == 0x5C ==> Repr(c) == [0x5C, c]
    ensures 0x20 <= c <= 0x7E && c != 0x22 && c != 0x5C ==> Repr(c) == [c]
    ensures forall k | 0 <= k < 5 && c == [10, 13, 9, 7, 8][k] :: Repr(c) == [0x5C, Ascii("nrtab")[k]]
    ensures (c < 0x20 || c > 0x7E) && c !in [10, 13, 9, 7, 8] ==>
      Repr(c) == [0x5C, 0x78, LowerHex(c / 16), LowerHex(c % 16)]
  {
  }
}
