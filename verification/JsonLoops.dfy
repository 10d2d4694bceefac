/** How far the loops of the parser have come: what has been read so far, in front of what the rest
    of the text still gives. */
module JsonLoops {
  import opened Bytes
  import opened JsonGrammar
  import opened JsonSyntax

  function Resumed<T>(acc: seq<T>, r: Parsed<seq<T>>): Parsed<seq<T>> {
    if r.Fail? then Fail else Ok(acc + r.value, r.end)
  }

  lemma NothingResumed<T>(r: Parsed<seq<T>>)
    ensures Resumed([], r) == r
  {
    if r.Ok? {
      assert [] + r.value == r.value;
    }
  }

  lemma ResumedAgain<T>(acc: seq<T>, x: seq<T>, r: Parsed<seq<T>>)
    ensures Resumed(acc, Resumed(x, r)) == Resumed(acc + x, r)
  {
    if r.Ok? {
      assert acc + (x + r.value) == acc + x + r.value;
    }
  }

  /** One round of the loop of `parse_string`. */
  lemma CharsStep(s: bytes, j: nat, acc: bytes)
    requires j <= |s| && At(s, j) != QUOTE
    ensures ParseChar(s, j).Fail? ==> ParseChars(s, j).Fail?
    ensures ParseChar(s, j).Ok? ==>
      var c := ParseChar(s, j);
      Resumed(acc, ParseChars(s, j)) == Resumed(acc + c.value, ParseChars(s, c.end))
  {
    if ParseChar(s, j).Ok? {
      ResumedAgain(acc, ParseChar(s, j).value, ParseChars(s, ParseChar(s, j).end));
    }
  }

  /** Behind an element or a member: the bracket that closes, or a comma and blanks. */
  ghost predicate Separated(s: bytes, k: nat, close: byte, ok: bool, last: bool, next: nat)
    requires k <= |s|
  {
    && ok == (At(s, k) == close || At(s, k) == COMMA)
    && last == (At(s, k) == close)
    && (ok ==> next == if last then k + 1 else SkipSpace(s, k + 1))
  }

  /** In the loop of `parse_array`: what was read up to `j`, and what is left from there, is all of it. */
  ghost predicate ElementsLeft(s: bytes, i: nat, j: nat, acc: seq<Json>) {
    i <= j <= |s| && Resumed(acc, ParseElements(s, j)) == ParseElements(s, i)
  }

  /** What a round of that loop leaves: a failure, all that there is or a position to go on from. */
  ghost predicate ElementsStand(s: bytes, i: nat, ok: bool, last: bool, end: nat, acc: seq<Json>)
    requires i <= |s|
  {
    if !ok then ParseElements(s, i).Fail?
    else if last then ParseElements(s, i) == Ok(acc, end)
    else ElementsLeft(s, i, end, acc)
  }

  lemma ElementsSteps(s: bytes, i: nat, j: nat, acc: seq<Json>, ok: bool, last: bool, next: nat, read: seq<Json>)
    requires ElementsLeft(s, i, j, acc)
    requires var e := ParseValue(s, j);
      if e.Fail? then !ok else read == acc + [e.value] && Separated(s, SkipSpace(s, e.end), RBRACKET, ok, last, next)
    ensures ElementsStand(s, i, ok, last, next, read) == true
  {
    var e := ParseValue(s, j);
    if e.Ok? && last {
      assert ParseElements(s, j) == Ok([e.value], next);
    } else if ok {
      var rest := ParseElements(s, next);
      assert ParseElements(s, j) == Resumed([e.value], rest);
      ResumedAgain(acc, [e.value], rest);
    }
  }

  /** In the loop of `parse_object`: what was read up to `j`, and what is left from there, is all of it. */
  ghost predicate MembersLeft(s: bytes, i: nat, j: nat, acc: seq<Member>) {
    i <= j <= |s| && Resumed(acc, ParseMembers(s, j)) == ParseMembers(s, i)
  }

  /** What a round of that loop leaves: a failure, all that there is or a position to go on from. */
  ghost predicate MembersStand(s: bytes, i: nat, ok: bool, last: bool, end: nat, acc: seq<Member>)
    requires i <= |s|
  {
    if !ok then ParseMembers(s, i).Fail?
    else if last then ParseMembers(s, i) == Ok(acc, end)
    else MembersLeft(s, i, end, acc)
  }

  lemma MembersSteps(s: bytes, i: nat, j: nat, acc: seq<Member>, ok: bool, last: bool, next: nat, read: seq<Member>)
    requires MembersLeft(s, i, j, acc)
    requires var e := ParseMember(s, j);
      if e.Fail? then !ok else read == acc + [e.value] && Separated(s, SkipSpace(s, e.end), RBRACE, ok, last, next)
    ensures MembersStand(s, i, ok, last, next, read) == true
  {
    var e := ParseMember(s, j);
    if e.Ok? && last {
      assert ParseMembers(s, j) == Ok([e.value], next);
    } else if ok {
      var rest := ParseMembers(s, next);
      assert ParseMembers(s, j) == Resumed([e.value], rest);
      ResumedAgain(acc, [e.value], rest);
    }
  }
}
