/** What the HTTP server sends, as JSON. */
module ServedJson {
  import opened Bytes
  import opened JsonGrammar
  import opened JsonPrinting
  import opened JsonRoundTrip
  import JsonParsing
  import JsonSyntax
  import P = Publish
  import Utf8

  const BLANK: bytes := [0x20]

  /** "mount_point" and "free_space". */
  const MOUNT_POINT: bytes := [0x6D, 0x6F, 0x75, 0x6E, 0x74, 0x5F, 0x70, 0x6F, 0x69, 0x6E, 0x74]
  const FREE_SPACE: bytes := [0x66, 0x72, 0x65, 0x65, 0x5F, 0x73, 0x70, 0x61, 0x63, 0x65]

  /** A file system that `ST_check_mtab` reports: where it is mounted, and the text that the percentage
      of free space prints as. */
  datatype Entry = Entry(mountPoint: bytes, freeSpace: bytes)

  /** `json_stringify` prints the report only if its strings are UTF-8; that is asserted. */
  predicate Reportable(entries: seq<Entry>) {
    forall e <- entries :: Utf8.Text(e.mountPoint) && 0 !in e.freeSpace
  }

  function EntryValue(e: Entry): Json {
    Obj([Member(MOUNT_POINT, Str(e.mountPoint)), Member(FREE_SPACE, Num(e.freeSpace))])
  }

  /** The array that `ST_check_mtab` builds. */
  function Report(entries: seq<Entry>): (v: Json)
    ensures v.Arr? && |v.elems| == |entries|
  {
    Arr(seq(|entries|, i requires 0 <= i < |entries| => EntryValue(entries[i])))
  }

  function Print(entries: seq<Entry>): bytes
    requires Reportable(entries)
  {
    ReportIsPrintable(entries);
    EmitIndented(Report(entries), BLANK, 0)
  }

  /** A text of ASCII letters and the like, which is printed as it is. */
  predicate Unescaped(s: bytes) {
    forall k | 0 <= k < |s| :: 0x20 <= s[k] < 0x80 && s[k] != QUOTE && s[k] != BACKSLASH
  }

  lemma {:induction false} UnescapedPrints(s: bytes)
    requires Unescaped(s)
    ensures Utf8.Text(s) && EmitChars(s) == s && UNIT_SEPARATOR !in s
  {
    if s != [] {
      assert Utf8.ValidateCz(s, 0) == 1 && s == s[..1] + s[1..];
      UnescapedPrints(s[1..]);
    }
  }

  lemma Names()
    ensures MOUNT_POINT == Ascii("mount_point") && FREE_SPACE == Ascii("free_space")
    ensures Unescaped(MOUNT_POINT) && Unescaped(FREE_SPACE)
  {
  }

  lemma ReportIsPrintable(entries: seq<Entry>)
    requires Reportable(entries)
    ensures Printable(Report(entries))
    ensures HoldsUnitSeparator(Report(entries)) <==> exists e <- entries :: UNIT_SEPARATOR in e.mountPoint
  {
    var elems := Report(entries).elems;
    forall k | 0 <= k < |entries|
      ensures Printable(elems[k])
      ensures HoldsUnitSeparator(elems[k]) <==> UNIT_SEPARATOR in entries[k].mountPoint
    {
      EntryIsPrintable(entries[k]);
    }
    if e :| e in entries && UNIT_SEPARATOR in e.mountPoint {
      var k :| 0 <= k < |entries| && entries[k] == e;
      assert HoldsUnitSeparator(elems[k]);
    }
  }

  lemma EntryIsPrintable(e: Entry)
    requires Utf8.Text(e.mountPoint) && 0 !in e.freeSpace
    ensures Printable(EntryValue(e))
    ensures HoldsUnitSeparator(EntryValue(e)) <==> UNIT_SEPARATOR in e.mountPoint
  {
    Names();
    PairIsPrintable(MOUNT_POINT, e.mountPoint, FREE_SPACE, e.freeSpace);
  }

  lemma PairIsPrintable(a: bytes, s: bytes, b: bytes, n: bytes)
    requires Unescaped(a) && Unescaped(b) && Utf8.Text(s) && 0 !in n
    ensures var v := Obj([Member(a, Str(s)), Member(b, Num(n))]);
      Printable(v) && (HoldsUnitSeparator(v) <==> UNIT_SEPARATOR in s)
  {
    UnescapedPrints(a);
    UnescapedPrints(b);
    var ms := [Member(a, Str(s)), Member(b, Num(n))];
    assert ms[0] in ms;
  }

  /** The print is a JSON text exactly if no mount point holds the byte 0x1F, and decodes to the report. */
  lemma PrintDecodes(entries: seq<Entry>)
    requires Reportable(entries)
    ensures var t, lost := Print(entries), exists e <- entries :: UNIT_SEPARATOR in e.mountPoint;
      && JsonSyntax.Decode(t) == (if lost then None else Some(Normal(Report(entries))))
      && ((exists w :: Derives(t, w)) <==> !lost)
  {
    var v := Report(entries);
    var t := Print(entries);
    ReportIsPrintable(entries);
    StringifyThenDecode(v, BLANK);
    EncodeThenDecode(v);
    IndentedPrints(v, BLANK, 0);
    if JsonSyntax.Decode(t).Some? {
      JsonParsing.DecodeIsGrammar(t, JsonSyntax.Decode(t).value);
    }
    if w :| Derives(t, w) {
      JsonParsing.DecodeIsGrammar(t, w);
    }
  }

  // The report, byte by byte

  /** In the order of the entries, each with its mount point and its percentage under their names. */
  lemma ReportHolds(entries: seq<Entry>, k: nat)
    requires k < |entries|
    ensures Report(entries).elems[k] ==
      Obj([Member(Ascii("mount_point"), Str(entries[k].mountPoint)), Member(Ascii("free_space"), Num(entries[k].freeSpace))])
  {
    assert MOUNT_POINT == Ascii("mount_point") && FREE_SPACE == Ascii("free_space");
  }

  lemma UnescapedString(s: bytes)
    requires Unescaped(s)
    ensures Utf8.Text(s) && EmitString(s) == [0x22] + (s + [0x22])
  {
    UnescapedPrints(s);
  }

  /** A line of an entry: two blanks, the name, a colon, a blank and the value. */
  function Line(name: bytes, value: bytes): bytes {
    [0x20, 0x20, 0x22] + (name + ([0x22, 0x3A, 0x20] + value))
  }

  function PairText(a: bytes, s: bytes, b: bytes, n: bytes): bytes {
    [0x20, 0x7B, 0x0A] + (Line(a, s) + ([0x2C, 0x0A] + (Line(b, n) + [0x0A, 0x20, 0x7D])))
  }

  function EntryText(e: Entry): bytes
    requires Utf8.Text(e.mountPoint)
  {
    PairText(Ascii("mount_point"), EmitString(e.mountPoint), Ascii("free_space"), EmitNumber(e.freeSpace))
  }

  function EntriesText(entries: seq<Entry>): bytes
    requires Reportable(entries)
  {
    if entries == [] then []
    else if |entries| == 1 then EntryText(entries[0])
    else EntryText(entries[0]) + ([0x2C, 0x0A] + EntriesText(entries[1..]))
  }

  /** The text that is published for these entries: brackets on their own lines, the entries between
      them indented once, their lines twice. */
  lemma ReportText(entries: seq<Entry>)
    requires Reportable(entries)
    ensures Print(entries) ==
      if entries == [] then [0x5B, 0x5D] else [0x5B, 0x0A] + (EntriesText(entries) + [0x0A, 0x5D])
  {
    ReportIsPrintable(entries);
    if entries != [] {
      EntriesPrint(entries);
      Closing(LBRACKET, NEWLINE, EntriesText(entries), RBRACKET);
    }
  }

  lemma Closing(open: byte, nl: byte, lines: bytes, close: byte)
    ensures [open] + ([nl] + (lines + [nl] + ([] + [close]))) == [open, nl] + (lines + [nl, close])
  {
  }

  lemma {:induction false} EntriesPrint(entries: seq<Entry>)
    requires Reportable(entries) && entries != []
    ensures (forall e <- Report(entries).elems :: Printable(e)) &&
      IndentedElements(Report(entries).elems, BLANK, 0) == EntriesText(entries) + [NEWLINE]
  {
    ReportIsPrintable(entries);
    EntryPrints(entries[0]);
    var es := Report(entries).elems;
    if |entries| > 1 {
      EntriesPrint(entries[1..]);
      ReportRest(entries);
      LinesPrint(es, EntryText(entries[0]), EntriesText(entries[1..]));
    } else {
      LinesPrint(es, EntryText(entries[0]), []);
    }
  }

  lemma ReportRest(entries: seq<Entry>)
    requires entries != []
    ensures Report(entries).elems[1..] == Report(entries[1..]).elems && Report(entries).elems[0] == EntryValue(entries[0])
  {
  }

  lemma LinesPrint(es: seq<Json>, x: bytes, rest: bytes)
    requires es != [] && (forall e <- es :: Printable(e)) && BLANK + EmitIndented(es[0], BLANK, 1) == x
    requires |es| > 1 ==> IndentedElements(es[1..], BLANK, 0) == rest + [NEWLINE]
    ensures IndentedElements(es, BLANK, 0) == (if |es| == 1 then x else x + ([0x2C, 0x0A] + rest)) + [NEWLINE]
  {
    RepeatOnce(BLANK);
    LinesPrintWith(BLANK, es, x, rest);
  }

  lemma RepeatOnce(t: bytes)
    ensures Repeat(t, 1) == t && Repeat(t, 2) == t + t && Repeat(t, 0) == []
  {
    assert t + [] == t && Repeat(t, 2) == t + Repeat(t, 1);
  }

  lemma LinesPrintWith(space: bytes, es: seq<Json>, x: bytes, rest: bytes)
    requires es != [] && (forall e <- es :: Printable(e)) && Repeat(space, 1) == space
    requires space + EmitIndented(es[0], space, 1) == x
    requires |es| > 1 ==> IndentedElements(es[1..], space, 0) == rest + [NEWLINE]
    ensures IndentedElements(es, space, 0) == (if |es| == 1 then x else x + ([0x2C, 0x0A] + rest)) + [NEWLINE]
  {
    var y := EmitIndented(es[0], space, 1);
    if |es| == 1 {
      assert IndentedElements(es, space, 0) == space + (y + [NEWLINE]);
      Assoc(space, y, [NEWLINE]);
    } else {
      assert IndentedElements(es, space, 0) == space + (y + ([COMMA, NEWLINE] + (rest + [NEWLINE])));
      NextEntry(space, y, [COMMA, NEWLINE], rest, [NEWLINE]);
    }
  }

  lemma NextEntry(indent: bytes, x: bytes, comma: bytes, rest: bytes, nl: bytes)
    ensures indent + (x + (comma + (rest + nl))) == indent + x + (comma + rest) + nl
  {
  }

  lemma EntryPrints(e: Entry)
    requires Utf8.Text(e.mountPoint) && 0 !in e.freeSpace
    ensures Printable(EntryValue(e)) && BLANK + EmitIndented(EntryValue(e), BLANK, 1) == EntryText(e)
  {
    Names();
    PairPrints(BLANK, MOUNT_POINT, e.mountPoint, FREE_SPACE, e.freeSpace, EntryValue(e));
  }

  lemma PairPrints(space: bytes, a: bytes, s: bytes, b: bytes, n: bytes, v: Json)
    requires space == [0x20] && Unescaped(a) && Unescaped(b) && Utf8.Text(s) && 0 !in n
    requires v == Obj([Member(a, Str(s)), Member(b, Num(n))])
    ensures Printable(v) && space + EmitIndented(v, space, 1) == PairText(a, EmitString(s), b, EmitNumber(n))
  {
    UnescapedString(a);
    UnescapedString(b);
    var first, last := Member(a, Str(s)), Member(b, Num(n));
    var ms := [first, last];
    assert ms[1..] == [last];
    RepeatOnce(space);
    var x, y := IndentedMember(first, space, 2), IndentedMember(last, space, 2);
    assert IndentedMembers([last], space, 1) == space + space + (y + [NEWLINE]);
    assert IndentedMembers(ms, space, 1) == space + space + (x + ([COMMA, NEWLINE] + (space + space + (y + [NEWLINE]))));
    MemberLine(a, EmitString(s));
    MemberLine(b, EmitNumber(n));
    assert space + space == [0x20, 0x20];
    assert v.members == ms;
    assert EmitIndented(v, space, 1) == [LBRACE] + ([NEWLINE] + (IndentedMembers(ms, space, 1) + (space + [RBRACE])));
    assert EmitIndented(Str(s), space, 2) == EmitString(s) && EmitIndented(Num(n), space, 2) == EmitNumber(n);
    assert x == [0x22] + (a + [0x22]) + ([COLON, 0x20] + EmitString(s));
    assert y == [0x22] + (b + [0x22]) + ([COLON, 0x20] + EmitNumber(n));
    PairLines(x, y);
  }

  lemma MemberLine(name: bytes, value: bytes)
    ensures [0x20, 0x20] + ([0x22] + (name + [0x22]) + ([COLON, 0x20] + value)) == Line(name, value)
  {
  }

  lemma PairLines(x: bytes, y: bytes)
    ensures [0x20] + ([LBRACE] + ([NEWLINE] + (
        [0x20, 0x20] + (x + ([COMMA, NEWLINE] + ([0x20, 0x20] + (y + [NEWLINE])))) + ([0x20] + [RBRACE]))))
      == [0x20, 0x7B, 0x0A] + ([0x20, 0x20] + x + ([0x2C, 0x0A] + ([0x20, 0x20] + y + [0x0A, 0x20, 0x7D])))
  {
  }

  // The daemon with what it finds

  /** A step of the daemon, in which the main thread prints what it has found. */
  datatype Step =
    | Main(enabled: bool, entries: seq<Entry>, id: nat)
    | Other(action: P.Action)

  predicate IsStep(step: Step) {
    match step
    case Main(_, entries, _) => Reportable(entries)
    case Other(a) => !a.Main?
  }

  function Action(step: Step): P.Action
    requires IsStep(step)
  {
    match step
    case Main(enabled, entries, id) => P.Main(enabled, Print(entries), id)
    case Other(a) => a
  }

  function Actions(steps: seq<Step>): (actions: seq<P.Action>)
    requires forall step <- steps :: IsStep(step)
    ensures |actions| == |steps|
  {
    if steps == [] then [] else [Action(steps[0])] + Actions(steps[1..])
  }

  lemma {:induction false} ActionAt(steps: seq<Step>, k: nat)
    requires (forall step <- steps :: IsStep(step)) && k < |steps|
    ensures Actions(steps)[k] == Action(steps[k])
  {
    if k > 0 {
      ActionAt(steps[1..], k - 1);
    }
  }

  /** Every response is the constant {}, or the print of what the check loop has found at some time
      (to begin with, nothing). So it is a JSON text exactly if no mount point in it holds the byte 0x1F. */
  lemma ResponsesAreJson(steps: seq<Step>, k: nat) returns (entries: seq<Entry>)
    requires forall step <- steps :: IsStep(step)
    requires P.Run(P.Init(), Actions(steps)).Some? && k < |P.Run(P.Init(), Actions(steps)).value.sent|
    ensures Reportable(entries)
    ensures var t := P.Run(P.Init(), Actions(steps)).value.sent[k];
      || t == P.EMPTY_OBJECT
      || (&& t == Print(entries)
          && (entries == [] || exists i | 0 <= i < |steps| :: steps[i].Main? && steps[i].entries == entries)
          && ((exists w :: Derives(t, w)) <==> !exists e <- entries :: UNIT_SEPARATOR in e.mountPoint))
  {
    var actions := Actions(steps);
    var s := P.Run(P.Init(), actions).value;
    P.PublicationIsSafe(actions);
    var t := s.sent[k];
    assert P.Good(s, t);
    entries := [];
    if t == P.EMPTY_ARRAY {
      assert Print([]) == P.EMPTY_ARRAY;
    } else if t != P.EMPTY_OBJECT {
      P.MadeIsPrinted(P.Init(), actions, t);
      var i :| 0 <= i < |actions| && actions[i].Main? && actions[i].print_ == t;
      ActionAt(steps, i);
      assert steps[i] in steps;
      entries := steps[i].entries;
    }
    PrintDecodes(entries);
  }

  /** The constant is a JSON text too. */
  lemma EmptyObjectIsJson()
    ensures Derives(P.EMPTY_OBJECT, Obj([]))
  {
    EncodeThenDecode(Obj([]));
    assert EmitValue(Obj([])) == P.EMPTY_OBJECT;
    JsonParsing.DecodeIsGrammar(P.EMPTY_OBJECT, Obj([]));
  }
}
