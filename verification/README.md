# Verified model of the stored daemon

The daemon watches the free space of the mounted file systems. Its check loop builds a JSON tree of
what it finds, prints it to a text and publishes the text; an HTTP thread serves a copy of it. The
project models, in Dafny, the three parts of the program where most can go wrong, and proves what
they promise.

* **The JSON library** (`src/util/json.c`): a cursor parser, a compact and an indenting printer on a
  doubling string buffer, a UTF-8 codec, an intrusive tree of nodes that is linked and unlinked in
  place, and a checker for that tree.
* **The dynamic strings** (`src/util/sds.c`, `src/util/sds.h`): five header widths, quoting and
  tokenizing, splitting and joining, formatting.
* **The publish protocol** between the check loop and the HTTP thread (`src/mtab_check_loop.c`,
  `src/mtab_checker.c`, `src/util/srv.c`, `src/stored.c`): small steps, in any interleaving.

`dafny verify dfyconfig.toml` checks everything.

## How it is put together

| files | content |
|---|---|
| `Bytes`, `Utf8` | byte strings read through a `const char *`; the Unicode helpers |
| `JsonGrammar` | sections 2 to 7 of RFC 8259 as derivation trees with a text and a meaning, independent of the parser |
| `JsonSyntax`, `JsonParsing` | the parser as functions on positions; sound and complete for the grammar |
| `JsonPrinting`, `JsonRoundTrip` | the printers as functions on values; what decoding makes of their output |
| `JsonTables` | the bytes that the grammar, the parser and the printers share, one by one |
| `JsonLayout` | the layout of both prints, told from the text alone |
| `JsonNumbers`, `JsonReprint` | numbers that go through `strtod` and `sprintf`; decoding, printing and decoding again |
| `Memory`, `StringBuffer` | the C heap; the class `SB` |
| `JsonTree`, `JsonNodes`, `JsonLinks` | which memory is a tree, and of which value; the same struct by struct; what linking and unlinking does to it |
| `JsonWhole` | linking and unlinking anywhere in a tree |
| `JsonEdit`, `JsonDelete`, `JsonBuild` | the functions that link, unlink and free; trees that grow by one node |
| `JsonLoops`, `JsonScanner`, `JsonParser` | the parser itself, imperative, with all its allocations |
| `JsonPrinter`, `JsonIndenter` | the printers themselves, writing through `SB` |
| `JsonShape`, `JsonDecision`, `JsonCheck` | the tests of `json_check` as a run with bounded fuel; when it ends and what it decides; `json_check` itself |
| `Sds`, `SdsNumbers`, `SdsFormat`, `SdsQuoting`, `SdsSplit` | the dynamic strings |
| `SdsLines` | the lines that `sdssplitargs` takes apart, as a grammar; sound and complete |
| `Publish`, `PublishRuns`, `ServedJson` | the protocol and its safety; what its runs do; what that says about the responses |

Nodes and C strings live in an explicit memory, a map from addresses to structs and texts in the
class `Memory.Heap`; a store through a pointer, `malloc` and `free` are its methods. An access to
something that is not allocated has no meaning there, so that every verified method also shows that
there is none. The shape of a tree is a value of the type `JsonTree.Forest`, given to the methods as
a ghost parameter. Byte buffers are Dafny arrays.
A double is held as the text that it prints as. The parser makes that text of the text in the document
with a function `render`, `strtod` followed by `sprintf`, about which nothing is taken for granted but
that it gives C strings. In contracts, `== true` behind a predicate keeps the verifier from splitting it
into its parts.

## What was found

* `emit_string` escapes bytes below 0x1F (`src/util/json.c:1153`) and `parse_string` rejects bytes up
  to 0x1F (`src/util/json.c:846`). A print decodes to nothing exactly if some string in it holds the
  byte 0x1F, and the daemon's responses are JSON exactly if no mount point does. Such a string can come
  out of the parser: `"\u001F"` is accepted (`JsonRoundTrip.DecodedSeparator`).
* Numbers change where `sprintf` prints a double in another way than it was written. A decoded value
  comes back from its print exactly if it holds no 0x1F and all its numbers print as they were written
  (`JsonReprint.ValueComesBack`); a tree comes back exactly if it holds no 0x1F and all its numbers print
  as JSON numbers that print the same again (`JsonReprint.TreeComesBack`). The document `1e999` becomes
  null (`JsonReprint.OverflowIsLost`).
* The comment above `sdssplitargs` says that what `sdscatrepr` prints can be read back. That holds for
  all bytes, but only if a space or nothing follows (`SdsQuoting.QuotedReadsBack`).
* `sdssplitlen` gives no tokens for the empty string, so that the list of one empty token is the one
  list of separable tokens that is lost by joining and splitting (`SdsSplit.JoinThenSplit`).
* `json_check` comes to an end exactly if it does not come to look into its first node again
  (`JsonDecision.EndsExactly`), so always for a node that is not among its own ancestors. On two arrays
  that are each other's child it goes on for ever (`JsonDecision.CycleNeverEnds`).
* The threads can come to a halt: a reload that interrupts the check loop while it holds the mutex waits
  for a server that waits for the mutex. There is no other way (`PublishRuns.StuckExactly`,
  `PublishRuns.CanCross`).
* In a line for `sdssplitargs`, a vertical tab or a form feed is a blank in front of a word and behind a
  quote, but part of a word without quotes (`SdsLines.SplitIsGrammar`).
* `sdscatfmt` keeps its position in an `int`, which is right exactly up to 2^31 - 1
  (`SdsFormat.PositionFits`).

## Model

| member | source | states |
|---|---|---|
| Utf8.ValidateIsRfc3629 | src/util/json.c:150-201 | the validator accepts n bytes exactly if they are one character of the syntax in section 4 of RFC 3629 |
| Utf8.ValidateStaysInside | src/util/json.c:150-201 | a character cut off by the terminator is never accepted, and nothing behind it is read |
| Utf8.ReadInvertsWrite | src/util/json.c:223-294 | every scalar value is written as one accepted character and read back from it |
| Utf8.WriteInvertsRead | src/util/json.c:223-294 | every RFC 3629 character is the writing of the scalar value that is read from it |
| Utf8.ReadLength | src/util/json.c:223-252 | reading and validating agree on the length |
| Utf8.EncodeIsText | src/util/json.c:204-215 | every encoding of scalar values without NUL is accepted by utf8_validate |
| Utf8.TextIsEncoding | src/util/json.c:204-215 | utf8_validate accepts nothing else |
| Utf8.EncodingIsUnique | src/util/json.c:261-289 | two runs of scalar values with the same bytes are the same run |
| Utf8.FromInvertsTo | src/util/json.c:297-319 | splitting a code point into surrogates and joining them again gives it back |
| Utf8.ToInvertsFrom | src/util/json.c:297-319 | a pair is joined exactly if it is a high and a low surrogate, and splitting gives the pair back |
| Utf8.EncodingKeepsOrder | src/util/json.c:254-289 | the encodings are in the order of the code points, which only one assignment of the characters is |
| Utf8.PairsKeepOrder | src/util/json.c:308-319 | so are the surrogate pairs |
| JsonParsing.NumberComplete | src/util/json.c:898-943 | every number of the grammar is parsed to its end, whatever stands behind it that no number goes on with |
| JsonParsing.NumberSound | src/util/json.c:898-943 | what is accepted as a number is one of the grammar |
| JsonParsing.StringComplete | src/util/json.c:773-886 | every string of the grammar is parsed to its end and its meaning |
| JsonParsing.StringSound | src/util/json.c:773-886 | what is accepted as a string is one of the grammar |
| JsonParsing.StringMeansText | src/util/json.c:819-862 | every string that is returned is UTF-8 without NUL |
| JsonParsing.ValueComplete | src/util/json.c:606-771 | every value of the grammar is parsed to its end and its meaning |
| JsonParsing.ValueSound | src/util/json.c:606-673 | what is accepted as a value is one of the grammar, with the same meaning |
| JsonParsing.ElementsSound | src/util/json.c:675-716 | the same for what stands between brackets |
| JsonParsing.MembersSound | src/util/json.c:718-771 | the same for what stands between braces |
| JsonParsing.DecodeIsGrammar | src/util/json.c:371-386 | a C string decodes to v exactly if it derives from sections 2 to 7 of RFC 8259, less \u0000 and unpaired surrogates, with the meaning v |
| JsonParsing.MeaningIsUnique | src/util/json.c:371-386 | no text has two meanings |
| JsonTables.HexDigitsInBothCases | src/util/json.c:1246-1251 | the digits 0 to 9, a to f and A to F are worth 0 to 15, and the upper-case ones are written |
| JsonTables.Hex16IsPositional | src/util/json.c:1237-1278 | four digits, each in either case, are read and written with the highest place first |
| JsonTables.ShortEscapes | src/util/json.c:799-818 | the eight two-byte escapes, letter by letter, and no other ones |
| JsonTables.PairOfEscapes | src/util/json.c:826-839 | the pair D834, dd1e, in either case, is the one character U+1D11E |
| JsonTables.BlanksAndDigits | src/util/json.c:321-322 | which four bytes are blanks, and which ten are digits |
| JsonTables.Tokens | src/util/json.c:606-673 | the bytes of the literals and of the structure |
| JsonTables.WrittenChars | src/util/json.c:1096-1181 | which bytes get an escape with a letter, which one with a number, and which are written as they are |
| JsonTables.ValidNumbers | src/util/json.c:1214-1220 | a number is printed as it is exactly if its text is a number of the grammar |
| JsonRoundTrip.WriteHex16Inverse | src/util/json.c:1237-1278 | parse_hex16 reads back what write_hex16 writes |
| JsonRoundTrip.StringRoundTrip | src/util/json.c:1078-1196 | in front of any suffix, parse_string gives back what emit_string has printed and stops there, or fails, exactly according to whether the string holds the byte 0x1F |
| JsonRoundTrip.CompactDerivation | src/util/json.c:952-1051 | the compact print of every value is a text of the grammar that means the value, but for invalid numbers |
| JsonRoundTrip.IndentedDerivation | src/util/json.c:978-1076 | the same for the indented print with any blanks, at every level |
| JsonRoundTrip.EncodeThenDecode | src/util/json.c:388-390 | decoding the compact print gives the same ordered tree, duplicate keys included and invalid numbers made null, or nothing exactly if some string holds 0x1F |
| JsonRoundTrip.StringifyThenDecode | src/util/json.c:401-411 | indenting by blanks does not change what the print decodes to |
| JsonRoundTrip.DecodedSeparator | src/util/json.c:819-841 | the escape for 0x1F is accepted, so that such values come out of the parser |
| JsonRoundTrip.IndentedPrints | src/util/json.c:978-1076 | no print holds a NUL, whatever C string is used for indenting |
| JsonLayout.CompactIsTight | src/util/json.c:952-1051 | outside of strings the compact print has no blank, and all its brackets and strings are closed |
| JsonLayout.IndentedIsLaidOut | src/util/json.c:978-1076 | the indented print is the compact one with a line for every item and every closing bracket, indented once for every bracket open there, and a blank behind every colon, whatever C string is used for indenting |
| JsonReprint.DecodeThenEncode | src/util/json.c:371-390 | decoding the print of a decoded document gives the same ordered tree with its numbers as their doubles print, null where that is no number, or nothing exactly if some string holds 0x1F |
| JsonReprint.ValueComesBack | src/util/json.c:938-939 | the document's value itself comes back exactly if it holds no 0x1F and every number prints as it was written |
| JsonReprint.TreeComesBack | src/util/json.c:1198-1212 | the value of any tree comes back from its print exactly if it holds no 0x1F and every number prints as a JSON number that prints the same again |
| JsonReprint.OverflowIsLost | src/util/json.c:1206-1211 | the document 1e999 is decoded, and printed and decoded again as null where its double prints as inf |
| StringBuffer.SB.constructor | src/util/json.c:54-60 | an empty buffer of capacity 16 |
| StringBuffer.SB.Grow | src/util/json.c:69-84 | the contents are kept, the capacity stays 16 doubled some times, is enough, and less than twice what is needed unless it was doubled once |
| StringBuffer.SB.Need | src/util/json.c:64-67 | room for the bytes asked for, contents and position kept |
| StringBuffer.SB.Commit | src/util/json.c:866-872 | the raw bytes up to the new position are part of the contents, and there is room again |
| StringBuffer.SB.Put | src/util/json.c:86-100 | exactly the bytes are appended |
| StringBuffer.SB.Putc | src/util/json.c:92-96 | exactly the byte is appended |
| StringBuffer.SB.Finish | src/util/json.c:102-108 | exactly the appended bytes become a C string, and the buffer is no longer one |
| JsonTree.ProperFrame | src/util/json.h:42-67 | a tree is the same tree with the same value in every memory that holds its nodes and strings |
| JsonNodes.TreeInPlace | src/util/json.h:42-67 | in a tree, every node below the root is linked from its neighbours and parent as they are from it, and has a key exactly if its parent is an object |
| JsonNodes.ScalarMeans | src/util/json.h:33-57 | which value the struct of a null, boolean, string or number stands for |
| JsonNodes.ArrayMeans | src/util/json.h:61-65 | an array stands for the values of its children from the head on along the next pointers |
| JsonNodes.ObjectMeans | src/util/json.h:61-65 | an object for their keys and values |
| JsonLinks.AppendTree | src/util/json.c:527-537 | appending a tree to a container keeps all links consistent: the new child is the last one |
| JsonLinks.AppendProper | src/util/json.c:527-561 | appending acts as append on the children, their values, strings and ownership |
| JsonLinks.PrependTree | src/util/json.c:539-549 | prepending keeps all links consistent: the new child is the first one |
| JsonLinks.PrependProper | src/util/json.c:539-549 | prepending acts as cons on the children, their values, strings and ownership |
| JsonLinks.RemoveTree | src/util/json.c:585-604 | unlinking a child keeps the other children in order and all links consistent, and leaves the child a tree of its own |
| JsonLinks.RemoveTwice | src/util/json.c:585-588 | unlinking a node without a parent changes nothing, so that unlinking twice is unlinking once |
| JsonLinks.WithoutSnoc | src/util/json.c:527-604 | unlinking the child just appended restores the previous list of children |
| JsonLinks.AppendThenUnlink | src/util/json.c:527-604 | unlinking the child just appended to an array or object restores the memory but for the child's key |
| JsonLinks.PrependThenUnlink | src/util/json.c:539-604 | the same for a child just prepended |
| JsonLinks.ElementThenRemove | src/util/json.c:556-604 | linking an element at either end and unlinking it restores the memory itself |
| JsonLinks.MemberThenRemove | src/util/json.c:570-604 | so does linking a member, whose key is copied, and unlinking it, which frees the key |
| JsonWhole.ReplaceNodes | src/util/json.h:42-67 | which nodes a tree consists of when the children of one of its nodes are changed |
| JsonWhole.ReplaceTexts | src/util/json.h:42-67 | which strings it owns then, and that it owns none twice |
| JsonWhole.ReplaceChain | src/util/json.c:527-604 | a change below one node that leaves a tree there leaves all links of the tree around it in order |
| JsonWhole.ChangedBelow | src/util/json.c:527-604 | and leaves the whole a tree of distinct nodes that owns no string twice |
| JsonWhole.NothingExchanged | src/util/json.h:42-67 | the value of a tree in which one node's value is exchanged for itself is the value of the tree |
| JsonWhole.ChangedValue | src/util/json.c:527-604 | and the value of the whole is the old one with the value of that node exchanged |
| JsonWhole.AppendInTree | src/util/json.c:527-537 | appending to any container below the root leaves the whole a tree, in which just that container has one child more, and whose value is the old one with the entry appended there (to the root itself: JsonLinks.AppendProper) |
| JsonWhole.PrependInTree | src/util/json.c:539-549 | the same for prepending (to the root itself: JsonLinks.PrependProper) |
| JsonWhole.RemoveInTree | src/util/json.c:585-604 | removing a child of any container below the root leaves the whole a tree whose value is the old one without that entry, and the removed node a tree of its own (a child of the root: JsonWhole.RemoveProper) |
| JsonWhole.RemoveProper | src/util/json.c:585-604 | unlinking a child: parent and child are two trees that share nothing, the parent's sequence has lost exactly the one entry, the child has kept its value |
| JsonEdit.AppendNode | src/util/json.c:527-537 | the stores make the memory that the lemmas are about |
| JsonEdit.PrependNode | src/util/json.c:539-549 | the stores make the memory that the lemmas are about |
| JsonEdit.AppendMember | src/util/json.c:551-554 | the member gets the key and is appended |
| JsonEdit.JsonAppendElement | src/util/json.c:556-561 | the element is appended, under the asserted conditions |
| JsonEdit.JsonPrependElement | src/util/json.c:563-568 | the element is prepended, under the asserted conditions |
| JsonEdit.JsonAppendMember | src/util/json.c:570-575 | the key is copied and the member appended |
| JsonEdit.JsonPrependMember | src/util/json.c:577-583 | the key is copied and the member prepended |
| JsonEdit.JsonRemoveFromParent | src/util/json.c:585-604 | the stores and the freeing of the key make the memory that the lemmas are about |
| JsonDelete.JsonDelete | src/util/json.c:413-435 | for any tree, alone or a child: unlinked, and exactly its nodes and strings are freed, each once; terminates although every call changes the list that is walked |
| JsonDelete.DeleteChildren | src/util/json.c:422-430 | the loop frees all children and nothing else, and leaves the node |
| JsonDelete.DeletedFirst | src/util/json.c:422-430 | one round of the loop leaves a node in order whose remaining children and strings are the old ones without the first |
| JsonDelete.DeletedParent | src/util/json.c:413-435 | the former parent is a tree with the other children, their values and strings |
| JsonDelete.DeleteIsExact | src/util/json.c:413-435 | what is freed, what is untouched, and that the parent's sequence loses exactly the one entry |
| JsonBuild.GrownAppend | src/util/json.c:689-705 | linking a parsed element, with or without a key, makes a memory that has grown by exactly one larger tree with one entry more |
| JsonBuild.GrownThenDeleted | src/util/json.c:713-715 | deleting what has been built restores the memory itself |
| JsonScanner.Literal | src/util/json.c:1222-1231 | succeeds exactly if the literal stands there, and never reads behind the terminator |
| JsonScanner.Number | src/util/json.c:898-943 | agrees with the number parser on positions, on success, end and failure |
| JsonScanner.Hex16At | src/util/json.c:1237-1263 | agrees with the parser on positions; the 16-bit shift loses nothing |
| JsonScanner.Utf8WriteChar | src/util/json.c:261-289 | stores exactly the encoding, at most four bytes |
| JsonScanner.CharInto | src/util/json.c:792-861 | one round stores the bytes of one character, within the four that are kept free |
| JsonScanner.String | src/util/json.c:773-886 | agrees with the string parser; the buffer is given back on failure and becomes the string on success; without a destination nothing is allocated |
| JsonParser.ParseValue | src/util/json.c:606-673 | agrees with the parser on positions; memory is unchanged on failure or without a destination, and has grown by exactly one tree with the parsed value on success, numbers as their doubles print |
| JsonParser.ParseArray | src/util/json.c:675-716 | the same, at every nesting depth and failure label |
| JsonParser.ParseObject | src/util/json.c:718-771 | the same, the key included |
| JsonParser.JsonDecode | src/util/json.c:371-386 | the null pointer and an unchanged memory, or exactly one new tree with the value of the document |
| JsonParser.JsonValidate | src/util/json.c:437-449 | true exactly if json_decode succeeds; memory is unchanged |
| JsonPrinter.WriteHex16 | src/util/json.c:1269-1278 | four digits, stored where they belong |
| JsonPrinter.EmitChar | src/util/json.c:1096-1181 | one round writes the character or its escape, at most six bytes |
| JsonPrinter.EmitString | src/util/json.c:1078-1196 | appends exactly the print of the string; the fourteen bytes kept free are never exceeded |
| JsonPrinter.EmitStringLength | src/util/json.c:1078-1196 | at least two bytes more than the string, at most six for every byte and two |
| JsonPrinter.EmitNumber | src/util/json.c:1198-1220 | appends the text exactly if it is a JSON number, and null otherwise |
| JsonPrinter.EmitValue | src/util/json.c:952-976 | appends exactly the compact print of the value of the tree, which is left alone |
| JsonPrinter.EmitArray | src/util/json.c:1004-1014 | the same for arrays |
| JsonPrinter.EmitObject | src/util/json.c:1039-1051 | the same for objects |
| JsonIndenter.EmitValueIndented | src/util/json.c:978-1002 | appends exactly the indented print of the value of the tree |
| JsonIndenter.EmitArrayIndented | src/util/json.c:1016-1037 | the same for arrays, the empty one included |
| JsonIndenter.EmitObjectIndented | src/util/json.c:1053-1076 | the same for objects, the empty one included |
| JsonIndenter.JsonStringify | src/util/json.c:401-411 | the only change to the memory is one new C string, the print |
| JsonIndenter.JsonEncode | src/util/json.c:388-390 | the same for the compact print |
| JsonIndenter.JsonEncodeString | src/util/json.c:392-399 | the same for a string |
| JsonCheck.Utf8Validate | src/util/json.c:204-215 | accepts exactly the NUL-free UTF-8 texts |
| JsonShape.CheckRunMore | src/util/json.c:1280-1345 | a run that comes to an end does not depend on how far it may go |
| JsonDecision.Onward | src/util/json.c:1312-1330 | since a child's parent is tested before it is looked into, the check goes on to a node that it is not already inside of |
| JsonDecision.NewChild | src/util/json.c:1312-1325 | the links tested so far show that the next child is none of the siblings seen before and none of the nodes below them |
| JsonDecision.Decides | src/util/json.c:1280-1345 | from a node that it does not come back to, the check ends; if it accepts there is a tree, and it accepts every tree |
| JsonDecision.EndsExactly | src/util/json.c:1280-1345 | on every closed memory, from every node: it ends exactly if it does not come to look into the node again |
| JsonDecision.AcceptsExactly | src/util/json.c:1280-1345 | on every closed memory, from every node: it accepts exactly the roots of trees: links, keys exactly on members, UTF-8 |
| JsonDecision.NoCircle | src/util/json.c:1319-1320 | it ends for every node that is not among its own ancestors |
| JsonDecision.CycleNeverEnds | src/util/json.c:1312-1330 | two arrays that are each other's only child are looked into for ever |
| JsonCheck.Check | src/util/json.c:1280-1345 | the tests and the loop do what the run does, wherever that ends |
| JsonCheck.JsonCheck | src/util/json.c:1280-1345 | decides whether a node that is not among its own ancestors is the root of a tree |
| JsonCheck.TreeIsUnique | src/util/json.c:1280-1345 | a node is the root of at most one tree |
| JsonCheck.DecodedIsAccepted | src/util/json.c:371-386 | what json_decode builds on closed memory leaves it closed, is accepted by json_check and can be printed |
| Sds.ReqType | src/util/sds.c:58-71 | the narrowest header type that holds the size |
| Sds.WidthsInBits | src/util/sds.h:47-79 | the five types hold lengths of 5, 8, 16, 32 and 64 bits |
| Sds.CutKeepsLowBits | src/util/sds.h:129-150 | what a header cuts off are the bits above its width |
| Sds.Str.SetLen | src/util/sds.h:129-150 | the length as far as the header type holds it, type 5 in the flags |
| Sds.Str.IncLen | src/util/sds.h:152-174 | the sum as far as the header type holds it |
| Sds.Str.SetAlloc | src/util/sds.h:194-213 | the allocation, which type 5 does not keep |
| Sds.Str.constructor | src/util/sds.c:84-138 | a valid string with exactly the given bytes, or zeroes |
| Sds.Str.MakeRoomFor | src/util/sds.c:197-240 | room for the bytes asked for, contents kept across every change of the header type, and how much is allocated |
| Sds.Str.RemoveFreeSpace | src/util/sds.c:248-272 | contents kept, nothing free, the narrowest header type |
| Sds.Str.GrowZero | src/util/sds.c:363-374 | zeroes appended up to the length asked for |
| Sds.Str.CatLen | src/util/sds.c:381-390 | the bytes appended, valid in every header type, and what is allocated and moved for that |
| Sds.Str.CpyLen | src/util/sds.c:410-419 | the bytes and nothing else |
| Sds.CatAll | src/util/sds.c:381-390 | a run of appends reallocates and moves content exactly as often and as much as the growth says; starting afresh and below SDS_MAX_PREALLOC, less than twice the final length |
| Sds.AppendsAreAmortised | src/util/sds.c:197-240 | in every run of appends that ends below SDS_MAX_PREALLOC, all reallocations together move less than twice the final length, and there are logarithmically many |
| Sds.RoomierIsFair | src/util/sds.c:208-212 | after a growth as much is free as is used, up to SDS_MAX_PREALLOC |
| Sds.AppendsAreBounded | src/util/sds.c:197-240 | in every run of appends of any length, the bytes moved are at most quadratic and the reallocations at most linear in the final allocation, with SDS_MAX_PREALLOC as the unit, and no more than that is free |
| SdsNumbers.DecimalIsCanonical | src/util/sds.c:435-493 | the digits mean the number and have no leading zeroes |
| SdsNumbers.DecimalIsUnique | src/util/sds.c:435-493 | there is no other such text |
| SdsNumbers.ValueIsPositional | src/util/sds.c:443-448 | every digit counts for its place |
| SdsNumbers.SignedIsCanonical | src/util/sds.c:435-464 | the text of a negative number is a minus sign and the numeral of its magnitude, that of any other number its numeral |
| SdsNumbers.SignedIsUnique | src/util/sds.c:435-464 | there is no other such text, and none that is one for two numbers |
| SdsNumbers.ReverseInPlace | src/util/sds.c:455-462 | the swapping loop reverses exactly the part asked for |
| SdsNumbers.DigitsBackwards | src/util/sds.c:443-448 | the digit loop makes the reversed text, at most twenty digits |
| SdsNumbers.Ull2Str | src/util/sds.c:467-493 | the text of every unsigned 64-bit number, terminated, within 21 bytes |
| SdsNumbers.Ll2Str | src/util/sds.c:435-464 | the same for every signed one, the smallest included |
| SdsFormat.PutArg | src/util/sds.c:612-655 | the argument's text appended, inside the allocation |
| SdsFormat.PlainExpands | src/util/sds.c:665-668 | a format without a percent sign expands to itself |
| SdsFormat.TextExpands | src/util/sds.c:610-620 | %s and %S expand to the text |
| SdsFormat.SignedExpands | src/util/sds.c:621-638 | %i and %I to the signed numeral |
| SdsFormat.UnsignedExpands | src/util/sds.c:639-653 | %u and %U to the numeral |
| SdsFormat.ByteExpands | src/util/sds.c:659-662 | a percent sign and any other byte, a second percent sign included, to that byte |
| SdsFormat.BothExpand | src/util/sds.c:593-672 | two formats one behind the other expand to the two expansions |
| SdsFormat.PositionFits | src/util/sds.c:585-592 | the int position is the length exactly up to 2^31 - 1 |
| SdsFormat.CatFmt | src/util/sds.c:585-677 | exactly the expansion of the format is appended, for every format and matching arguments, as long as the int position holds the length |
| SdsQuoting.CatRepr | src/util/sds.c:868-901 | exactly the quoted string is appended |
| SdsQuoting.QuotedReadsBack | src/util/sds.c:992-1041 | a quoted string is read back exactly if a space or nothing follows, and is an error otherwise |
| SdsQuoting.QuotingRoundTrip | src/util/sds.c:968-969 | any list of byte strings, quoted and separated by blanks, is split into exactly that list |
| SdsLines.SplitIsGrammar | src/util/sds.c:976-1095 | a line is split into these strings exactly if it derives from a grammar of words without quotes, in single and in double quotes, with these meanings |
| SdsLines.LineComplete | src/util/sds.c:976-1095 | every line of the grammar is split into the meanings of its words |
| SdsLines.LineSound | src/util/sds.c:976-1095 | every line that is split is one of the grammar |
| SdsLines.QuotedByte | src/util/sds.c:868-901 | which bytes sdscatrepr escapes, and how |
| SdsQuoting.GetToken | src/util/sds.c:988-1076 | the state machine with its two flags agrees with the token functions, and terminates |
| SdsQuoting.FreeAll | src/util/sds.c:1088-1094 | the error label frees exactly the tokens and the unfinished one |
| SdsQuoting.SplitArgs | src/util/sds.c:976-1095 | the tokens of the line or an error, for every line; on an error every token is freed |
| SdsSplit.SplitLen | src/util/sds.c:805-842 | the tokens, every write inside the slots |
| SdsSplit.SplitNeedsSeparator | src/util/sds.c:809 | the null pointer exactly for the empty separator |
| SdsSplit.JoinOfBoth | src/util/sds.c:1134-1143 | a join holds the strings in their order with one separator between any two |
| SdsSplit.JoinSds | src/util/sds.c:1134-1143 | the join of the strings |
| SdsSplit.SplitThenJoin | src/util/sds.c:805-842 | joining what splitting gives restores the string |
| SdsSplit.TokensHoldNoSeparator | src/util/sds.c:805-842 | no token holds the separator |
| SdsSplit.JoinThenSplit | src/util/sds.c:1134-1143 | splitting a join gives the tokens back exactly if the separator is first found behind every token but the last, which holds none, and they are not just one empty token |
| Publish.StepIsSafe | src/mtab_check_loop.c:75-141 | every step of either thread and of the signal handlers keeps the invariant |
| Publish.FreeingIsSafe | src/mtab_checker.c:109-111 | freeing and replacing the text while the mutex is held keeps the invariant |
| Publish.PublishingIsSafe | src/mtab_check_loop.c:127-132 | so does publishing it |
| Publish.CopyingIsSafe | src/util/srv.c:167-177 | every byte that is copied is one of a live text |
| Publish.ReloadStopIsSafe | src/stored.c:22-26 | so does stopping the server from the handler, wherever the loop is interrupted |
| Publish.ReloadStartIsSafe | src/util/srv.c:233-276 | and starting it again |
| Publish.DestroyingIsSafe | src/stored.c:57-59 | and shutting down, since the server has been joined |
| Publish.PublicationIsSafe | src/mtab_check_loop.c:127-132 | in every run, with signals handled by the main thread one at a time, nothing freed is read or freed again, the published pointer is the constant or the current live text whenever the check loop does not hold the mutex, and only whole texts are sent |
| Publish.MadeIsPrinted | src/mtab_checker.c:109-111 | every text that has been made is what some check has printed |
| Publish.NothingIsLeft | src/stored.c:57-59 | at the end no text, struct or thread is left |
| Publish.CopyIsCurrent | src/util/srv.c:167-177 | the copy is the text published at that moment |
| Publish.CanGetThrough | src/stored.c:48-62 | every text can be made, published and sent in some run that then shuts down |
| PublishRuns.PublishedIsNewest | src/mtab_check_loop.c:127-132 | in every run, whenever the check loop does not hold the mutex, the text made last is published, or {} before the first one |
| PublishRuns.ResponsesAreNewest | src/util/srv.c:167-188 | the responses are, in order, the texts that were the newest when they were copied |
| PublishRuns.OnlyGetsAreAnswered | src/util/srv.c:154-188 | there is one response for every GET accepted, but for the one being served, and none for anything else |
| PublishRuns.DisabledStaysDown | src/util/srv.c:241-245 | while HTTP is disabled there is neither a server nor a response |
| PublishRuns.ReloadComesToRestart | src/util/srv.c:278-286 | every reload comes to starting the server again, at once or when the server, which it asks to stop, has ended |
| PublishRuns.OnlyHandlerReloads | src/stored.c:22-26 | no other thread's step ends a reload, and the loop stands still meanwhile |
| PublishRuns.ReloadRestarts | src/util/srv.c:288-292 | its last step leaves a server that takes requests exactly if HTTP is enabled, none otherwise, and changes nothing else |
| PublishRuns.ServerRunsUntilStopped | src/util/srv.c:122 | the server goes on to the next request exactly if no one waits for it to stop |
| PublishRuns.ServerEnds | src/util/srv.c:122-129 | it ends there or where a request cannot be accepted, and nowhere else |
| PublishRuns.ReloadGoesRound | src/stored.c:22-26 | a whole reload of an idle server ends in the state in which it began |
| PublishRuns.CanReload | src/stored.c:22-26 | every text can be sent after a reload, and the daemon can shut down after that |
| PublishRuns.LoopGoesOn | src/mtab_check_loop.c:79 | the check loop is not left before a signal tells it to stop |
| PublishRuns.StoppedMakesOneMore | src/mtab_check_loop.c:144-146 | after that at most one more text is made |
| PublishRuns.StuckExactly | src/stored.c:48-62 | the threads come to a halt before the end exactly if the handler waits for the server while the server waits for the mutex that the interrupted loop holds |
| PublishRuns.CanCross | src/stored.c:22-26 | there is a run that comes to that |
| ServedJson.PrintDecodes | src/mtab_checker.c:76-110 | the print of a report decodes to the report, or to nothing exactly if a mount point holds 0x1F |
| ServedJson.ReportHolds | src/mtab_checker.c:99-105 | the report has one object for every entry, in their order, with the mount point and the percentage under their names |
| ServedJson.ReportText | src/mtab_checker.c:109-110 | the published text, byte by byte |
| ServedJson.ResponsesAreJson | src/util/srv.c:167-188 | every response is {} or the print of what some check has found, and then a JSON text exactly if no mount point in it holds 0x1F |

## Left out

- Floating point: `strtod` and `sprintf` are foreign. Two doubles that print the same are one number here, and a number that is not printed but read, as in the check loop's comparison, is not modelled.
- Allocation failure: the process exits on it, so that allocation succeeds; for the dynamic strings the sizes are required to fit into size_t together with what growing adds.
- Assertions: the conditions that the C code asserts (UTF-8 in `emit_string`, tags and parents when linking) are requirements; the replacement character for invalid UTF-8, which only a build without assertions reaches, is not part of this model.
- The `escape_unicode` branches of `emit_string`: the flag is a constant false.
- The union in struct JsonNode: its members stand side by side, so that overlapping reads after a change of the tag are not modelled, and a `bool_` is always one of the two values.
- `json_check` error messages, and the difference between `unsigned` values of a tag and the enumeration.
- Bit masks and shifts are written as divisions and remainders of unsigned values.
- The `int` lengths of `sb_grow`, `sb_put` and `sdssplitlen` are unbounded.
- `json_find_element`, `json_find_member` and `json_first_child`: short searches.
- JsonLinks.AppendTree: that the child to be linked is detached and apart from the tree is required, here and wherever a child is linked, since the C code links it without looking.
- SdsSplit.SplitLen: the freeing of the tokens when an allocation fails, and `sdsfreesplitres`.
- SdsFormat.CatFmt: a format that ends in a bare percent sign reads behind its terminator, and a string of 2^31 bytes is written to in front of its beginning; both are excluded. The argument list is a sequence with the types that the format calls for.
- `sdstolower`, `sdstoupper`, `sdsmapchars`, `sdsrange`, `sdstrim`, `sdsclear`, `sdsdup`, `sdscmp`, `sdsupdatelen`, `sdsIncrLen` and `sdscatvprintf`: easy, or built on `vsnprintf`.
- The protocol's config mutex and the entries' own mutex: without them there are only more interleavings.
- Publish.PublicationIsSafe: signal handlers run on the main thread and `reload` is not entered again while it runs. SIGHUP is masked only in the thread that handles it, so that a second one during a reload can run the handler on the server's thread, which would then wait for itself.
- Fairness: whether a thread that can make a step ever makes it. Reloads are allowed only inside `ST_check_loop`.
- Weak memory: the two threads' steps are interleaved sequentially.
- HTTP parsing, sockets, netlink, mount tables, configuration, logging, forking and signals' delivery; the free-space percentages and the severity of messages.
