# Verified model of the rule engine's compilers, codecs and stores

This project models the parts of the CF rule engine that carry its hard properties, and proves those properties
for every input, every run and every reachable state of the model. `dafny verify dfyconfig.toml` checks all of it.

| files | what they model |
|---|---|
| `Template`, `Reader`, `BranchRule`, `BranchPrint`, `RuleNodes` | the template scanner of the rule loader: item, parameter and rule references in text, the branch-rule compiler, its inverse, and which nodes tell the reference they stand for |
| `OnePass`, `QueryRule`, `QueryIndex`, `QueryParts`, `BrokenRefs` | the query compiler, which strips comments and binds references in one pass, the index of bind positions it keeps, the statement it leaves of a text put together from parts, and how incomplete references end a compilation |
| `SqlComments`, `SqlLines` | `FindComments` and `RemoveComments`, on lines and on written texts |
| `ResultBuilder` | the classification of a rule result and the builders it selects |
| `Digits`, `ParmBuffer`, `DecimalRoundTrip` | packed and zoned decimal fields in a parameter buffer |
| `Wire`, `WireRoundTrip`, `WireForm`, `Reassembly` | the wire format of the Java client, its bytes, and the loop that rebuilds a reply from short reads |
| `Chains`, `StaticResult`, `TraceList` | the linked list of cached results with its memory account, and the list of pending traces |
| `Profile`, `ProfileLines`, `ProfilePrint`, `IniKey`, `IniPrint` | the ini reader: the character cursor with push-back, and the line-by-line look-up that is in use; written files for both |
| `SortSpec`, `SortSpecPrint` | the list of sort columns of an aggregate rule |
| `CText`, `Options` | C strings (`atoi`, `rtrim`, decimal text, first occurrences), and values that may be missing |

Code that works step by step is modelled as classes and loops and is proved against a specification function or
predicate; the lemmas then say what that specification means: an inverse, an independent definition, an invariant,
or the exact condition under which a law holds. A specification is written over the text still unread, so "the rest
is empty" is the terminator of a C string.

## Where the code does not do what one would expect

Each of these is proved, with the exact condition where there is one.

- A reference code of 0 ends the compilation of a template without an error; the query then keeps its old statement.
- The node of a rule reference keeps column and subscript without a mark between them, so `{id::12}(3)` and `{id::123}`
  are one node. A reference has a node of its own exactly when (no subscript) it has no column or one from -9 to 99,
  (subscript k >= 0) a column from 1 to 9, (k < 0 or `#k`) a column other than 0: `RuleNodes.NodeTellsReference`.
- Stripping comments first and binding afterwards is the same as the one pass of the query compiler exactly when no
  removed comment uncovers a reference: `OnePass.OnePassIffNoFalseRefs`.
- A bind takes four characters of the statement, but from the 100th reference on its name is longer. The next segment
  is written over what sticks out, so the 100th slot reads like the 10th (`QueryIndex.HundredthBindCollides`); the name stands in
  full exactly when nothing follows or a text that begins with its last digits (`QueryIndex.NameInFull`), and the
  statement then has characters behind the write position (`QueryIndex.StatementLength`). A query of comments only gets
  whatever an uninitialised buffer held (`QueryIndex.StatementWithoutText`).
- The format of `WriteLong` is "%0<leng>" without a conversion letter (src_c/Library/MTCParm.cpp:122-123), so as written it
  prints no digits. The zoned round trips below are those of the intended format "%0<leng>ld".
- `WritePack` and `ReadPack` test the length of the field and move ten bytes: near the end of the buffer they run over it
  (`ParmBuffer.CMTParm2.WritePack` and `ReadPack` say exactly when).
- A packed field without decimals never returns the number written, except 0 (`DecimalRoundTrip.PackedWholeFails`), and
  a lone field of more than ten digits cannot be read at all (`DecimalRoundTrip.PackThenRead`).
- A negative zoned number that does not fill its field is read with its minus sign as the digit 13
  (`DecimalRoundTrip.ZonedExact`), and every decimal behind the first is read as a tenth (`DecimalRoundTrip.TenthsExact`).
- A string of 26990 bytes is read back only when it is all zeros and ends the message (`WireRoundTrip.TextExact`); a
  failure reply with error code 0 passes for a success (`Reassembly.CFAPI5J.ReceiveReply`); a read that takes bytes of
  the body with the header loses them (`Reassembly.ExactBlock` says exactly when none does).
- `DelRuleResultAll` never frees the nodes: the account keeps one RULE_RESULT for each (`StaticResult.Run`).
- A failed `GoSection` leaves a flag set, and the next search begins one character too far: it misses a header in the
  first line, and takes `x[a]` for one. `ProfileLines.StaleFlagExactly` says for every text when it does no harm. The code
  that calls these searches one after the other is disabled in the source.
- `BuildResultSingleRec` stores one value for each expression into a block of one for each column, without comparing the
  two numbers (`ResultBuilder.BuildResultRec` gives the exact condition of the overrun).
- `GetIniKeyString` looks for a key in all later sections as well, and takes a longer key for it
  (`IniPrint.SpillsOver`, `IniPrint.PrefixHides`); `IniPrint.ReadBack` is the exact condition for reading a value back.
- `LoadRuleAggr` runs behind its arrays, without end, for any printing character other than digits, `A`, `D` and commas
  (`SortSpecPrint.Ends`).
- `rtrim` compares a character with 0xcc; characters are taken as signed, so only blanks are cut.

## Model

| member | source | states |
|---|---|---|
| CText.Dec | src_c/Runner/MRLODDT.cpp:484-533 | the decimal numeral of a number: digits only, no leading zero, its value is the number |
| CText.AtoiDec | src_c/Runner/MRLODDT.cpp:484-533 | atoi reads back every printed integer whatever non-digit follows it |
| CText.AtoiStops | src_c/Runner/MRLODDT.cpp:555-629 | atoi depends on nothing behind the first character that is neither blank, sign nor digit |
| CText.AtoiSpaced | src_c/Runner/MRLODDT.cpp:484-629 | atoi of blanks of any kind, a sign and digits is the signed number, and 0 where no digit comes |
| CText.RTrim | src_c/Runner/MRLODDT.cpp:645-645 | only blanks are cut off the end, and no blank is left there |
| Template.ReadRefPrefix | src_c/Runner/MRLODDT.cpp:484-629 | reading a reference looks at nothing behind its own end, but for a `(` behind a bare one |
| Reader.GetItemCd | src_c/Runner/MRLODDT.cpp:484-533 | code, subscript text and end of `[n]` and `[n](k)`, as the specification by first occurrences of the delimiters |
| Reader.GetParmCd | src_c/Runner/MRLODDT.cpp:535-553 | code and end of `$n$`, or the overrun when the closing sign is missing |
| Reader.GetRuleCd | src_c/Runner/MRLODDT.cpp:555-629 | code, column and subscript text and end of `{id:params:col}(k)`, or which error is thrown |
| Reader.GetRef | src_c/Runner/MRLODDT.cpp:778-799 | the reader chosen by the opening delimiter |
| BranchRule.CreateQBNode | src_c/Runner/MRLODDT.cpp:631-653 | a node keeps its type and code, and of the text only trailing blanks go |
| BranchRule.ParseBranchRule | src_c/Runner/MRLODDT.cpp:832-914 | the loop with its pending text is the scan into segments, for every source text, with all ways to end |
| BranchPrint.ScanPrinted | src_c/Runner/MRLODDT.cpp:832-914 | scanning a printed canonical list of pieces gives exactly its segments |
| BranchPrint.ParseUndoesPrint | src_c/Runner/MRLODDT.cpp:832-914 | parsing undoes printing for every canonical list, whatever text fills the params slots |
| BranchPrint.PieceOfNode | src_c/Runner/MRLODDT.cpp:631-653 | a node determines the piece it was compiled from, up to the skipped params |
| BranchPrint.PrintParseReadBack | src_c/Runner/MRLODDT.cpp:832-914 | print, parse and read the chain back is the identity up to the skipped params |
| BranchPrint.PrintThenParse | src_c/Runner/MRLODDT.cpp:832-914 | the compiler run on a printed list gives one node for each piece, and the pieces back |
| RuleNodes.NodeTellsReference | src_c/Runner/MRLODDT.cpp:596-653 | a node tells the rule reference it was compiled from, up to the params, exactly for the columns and subscripts of OwnNode |
| RuleNodes.OwnNodeExactly | src_c/Runner/MRLODDT.cpp:596-629 | the same for the text of column and subscript: no other pair leaves it exactly when OwnNode holds |
| RuleNodes.MarkedIsOwn | src_c/Runner/MRLODDT.cpp:596-629 | a `#` or a minus sign in the subscript gives column and subscript away |
| RuleNodes.Twin | src_c/Runner/MRLODDT.cpp:596-629 | every other pair has a twin with the same text |
| RuleNodes.WideColumnsCollide | src_c/Runner/MRLODDT.cpp:596-629 | for every rule a column of more than two characters compiles like the shorter one with its last digit as subscript |
| OnePass.OnePassIsTwoPasses | src_c/Runner/MRLODDT.cpp:669-829 | one pass finds the same segments as stripping first and scanning afterwards |
| OnePass.FalseRefsDiffer | src_c/Runner/MRLODDT.cpp:669-829 | when a removed comment uncovers a reference the two differ |
| OnePass.OnePassIffNoFalseRefs | src_c/Runner/MRLODDT.cpp:669-829 | so they agree exactly when none does |
| QueryRule.SkipLineComment | src_c/Runner/MRLODDT.cpp:678-683 | the cursor stops in front of the next newline |
| QueryRule.SkipBlockComment | src_c/Runner/MRLODDT.cpp:694-705 | the cursor stops right behind the first `*/` that follows, or at the end |
| QueryRule.TakeComment | src_c/Runner/MRLODDT.cpp:689-728 | a comment is skipped whole, a hint only has its opening copied |
| QueryRule.CollapseNewlines | src_c/Runner/MRLODDT.cpp:685-687 | of a run of newlines the last is left, and the scan goes on the same |
| QueryRule.PlaceholderLength | src_c/Runner/MRLODDT.cpp:814-816 | a placeholder is four characters exactly up to number 99 |
| QueryRule.QRuleData.ParseQueryRule | src_c/Runner/MRLODDT.cpp:655-830 | binds, statement and count are those of the query scan, for every text and every way to end |
| QueryIndex.SpacedPairs | src_c/Runner/MRLODDT.cpp:807-816 | any two bind positions are at least four apart, in order |
| QueryIndex.EmitIndexed | src_c/Runner/MRLODDT.cpp:771-829 | the binds are the references in order, each slot holds its number, and the text written so far without the slots is the literal text |
| QueryIndex.StatementLength | src_c/Runner/MRLODDT.cpp:805-829 | what the statement holds behind the write position; nothing exactly when it ends in text or has at most 99 references |
| QueryIndex.ErasedStatement | src_c/Runner/MRLODDT.cpp:805-829 | the statement without the slots is the literal text exactly under that condition |
| QueryIndex.NameInFull | src_c/Runner/MRLODDT.cpp:805-829 | the name of a reference stands in full at its position exactly when nothing follows, or text that goes on like the name |
| QueryIndex.SlotsNameTheirBinds | src_c/Runner/MRLODDT.cpp:814-816 | with at most 99 references every one has its name in full in the statement |
| QueryIndex.HundredthBindCollides | src_c/Runner/MRLODDT.cpp:814-816 | the 100th slot reads like the 10th |
| QueryIndex.NothingWritten | src_c/Runner/MRLODDT.cpp:669-823 | nothing is written exactly when stripping leaves nothing |
| QueryIndex.StatementWithoutText | src_c/Runner/MRLODDT.cpp:820-829 | the statement is then the uninitialised buffer, and in every other case does not depend on it |
| QueryParts.BlockGoes | src_c/Runner/MRLODDT.cpp:694-705 | a block comment goes, up to its first closing pair and no further, whatever follows |
| QueryParts.OpenBlockGoes | src_c/Runner/MRLODDT.cpp:694-705 | one that is never closed goes to the end of the text |
| QueryParts.LineGoes | src_c/Runner/MRLODDT.cpp:678-683 | a line comment goes, the line end behind it stays |
| QueryParts.HintStays | src_c/Runner/MRLODDT.cpp:689-728 | the opening of a hint stays, and the scan goes on behind it |
| QueryParts.ExtraGoes | src_c/Runner/MRLODDT.cpp:685-687 | of a doubled newline one goes |
| QueryParts.RunStays | src_c/Runner/MRLODDT.cpp:670-676 | a shift-out run stays with everything in it, comments too |
| QueryParts.OpenRun | src_c/Runner/MRLODDT.cpp:670-676 | a run without its end reads past the end of the text |
| QueryParts.PartsScan | src_c/Runner/MRLODDT.cpp:655-830 | for any text put together from parts, and anything behind it: the segments found and the text collected |
| QueryParts.EmitText | src_c/Runner/MRLODDT.cpp:771-829 | with at most 99 references the statement is the segments as text |
| QueryParts.ParseParts | src_c/Runner/MRLODDT.cpp:655-830 | ParseQueryRule on such a text: the binds are its references, the statement is what stays of each part with `:v01`, `:v02`, ... in their places |
| BrokenRefs.BrokenRead | src_c/Runner/MRLODDT.cpp:484-629 | how reading a reference without one of its closing signs ends, for each of the signs |
| BrokenRefs.BrokenBranch | src_c/Runner/MRLODDT.cpp:832-914 | what ParseBranchRule returns for a text that ends in one |
| BrokenRefs.BrokenQuery | src_c/Runner/MRLODDT.cpp:655-830 | how the query scan ends there |
| BrokenRefs.ParseBroken | src_c/Runner/MRLODDT.cpp:655-830 | ParseQueryRule then keeps the binds made so far, and the old statement and count |
| BrokenRefs.ZeroItem | src_c/Runner/MRLODDT.cpp:778-799 | a code of 0, or none, in an item reference ends both compilers in silence, whatever follows |
| BrokenRefs.ZeroRule | src_c/Runner/MRLODDT.cpp:778-799 | the same in a rule reference |
| BrokenRefs.ZeroParm | src_c/Runner/MRLODDT.cpp:778-799 | the same in a parameter |
| BrokenRefs.ItemSubscript | src_c/Runner/MRLODDT.cpp:507-530 | blanks in front of an item's subscript are passed; of one that begins with `#` two characters stay |
| SqlComments.IsEnclosed | src_c/Runner/MRLODDT.cpp:934-944 | a position is enclosed by one of the five delimiter pairs |
| SqlComments.FindComments | src_c/Runner/MRLODDT.cpp:917-966 | all of the line is kept when no comment begins in it, else what is in front of the first one, or nothing when only blanks are |
| SqlComments.ValidExactly | src_c/Runner/MRLODDT.cpp:917-966 | the scan by two characters finds the first `--` at an even place in its row of dashes that no delimiters enclose |
| SqlComments.EnclosedExactly | src_c/Runner/MRLODDT.cpp:924-944 | enclosed is: an opening delimiter anywhere in front and the closing one of the same kind anywhere behind, for each of the five pairs |
| SqlComments.CommentGoes | src_c/Runner/MRLODDT.cpp:917-966 | so a comment goes and the text in front of it stays, whatever the comment says |
| SqlComments.SqlText.RemoveComments | src_c/Runner/MRLODDT.cpp:969-1002 | the text is replaced by its kept lines, trimmed |
| SqlComments.EnclosedCut | src_c/Runner/MRLODDT.cpp:931-962 | cutting at the first `--` that is not enclosed keeps every earlier one enclosed |
| SqlComments.CutPrefix | src_c/Runner/MRLODDT.cpp:917-966 | the kept part of a line would be kept whole |
| SqlComments.CutTrim | src_c/Runner/MRLODDT.cpp:993-998 | trimming the tail uncovers no comment |
| SqlComments.ValidIsClean | src_c/Runner/MRLODDT.cpp:917-966 | what FindComments keeps of a line it keeps again |
| SqlComments.CleanedLinesAreClean | src_c/Runner/MRLODDT.cpp:969-1002 | FindComments keeps every line of the result whole, and none is empty |
| SqlComments.CleanedTwice | src_c/Runner/MRLODDT.cpp:969-1002 | RemoveComments is idempotent on every text |
| SqlLines.TokensOfRows | src_c/Runner/MRLODDT.cpp:978-995 | a text written with any line ends is read as its lines |
| SqlLines.TrimExactly | src_c/Runner/MRLODDT.cpp:993-998 | the final trim cuts blanks, semicolons, tabs and line ends, and nothing else |
| SqlLines.CleanRows | src_c/Runner/MRLODDT.cpp:969-1002 | RemoveComments on any written text: the kept part of each line, one newline between them, the end trimmed |
| SqlLines.CommentedLine | src_c/Runner/MRLODDT.cpp:969-1002 | of a line with a comment the text in front is left, trimmed |
| ResultBuilder.GetResultRecType | src_c/Runner/MRLODDT.cpp:223-289 | the classification of a statement by its first non-constant expression and its parentheses |
| ResultBuilder.BuildResultArrayRec | src_c/Runner/MRLODDT.cpp:350-399 | a list is built exactly when there is one column and the tokens read `( const (, const)* )`; one record for each constant, in order, that stands for it |
| ResultBuilder.BuildResultSingleRec | src_c/Runner/MRLODDT.cpp:406-432 | one value for each expression, that stands for its constant; a store behind the block exactly when there are more expressions than columns |
| ResultBuilder.BuildResultRec | src_c/Runner/MRLODDT.cpp:196-220 | for every class the mode reported and the values built; an array that does not fit gives -1; the overrun exactly for a single result with more expressions than columns |
| ResultBuilder.ArrayEnd | src_c/Runner/MRLODDT.cpp:350-399 | in an array the list that ends takes in the whole chain |
| ResultBuilder.ArrayForm | src_c/Runner/MRLODDT.cpp:244-288 | class 2 is exactly the statements that begin with a flat bracket expression |
| ResultBuilder.StandsExactly | src_c/Runner/MRLODDT.cpp:291-347 | the value stored is the only one that stands for the constant: its number, the whole part of it, its text as far as it fits, or whether it is not 0 |
| ResultBuilder.SameNumber | src_c/Runner/MRLODDT.cpp:291-347 | an integer constant is the same number in a double column and in an integer column |
| ResultBuilder.ClassExactly | src_c/Runner/MRLODDT.cpp:223-289 | the class of every statement, by counting its parentheses |
| ResultBuilder.BuildList | src_c/Runner/MRLODDT.cpp:196-399 | a written list of constants is built value by value for one column, and refused for any other number of columns |
| ParmBuffer.SpreadDigits | src_c/Library/MTCParm.cpp:205-232 | the nibble loop puts the digits and the sign where the packed form wants them, for both parities |
| ParmBuffer.PrintedDigits | src_c/Library/MTCParm.cpp:198-216 | the printed text cut to the field holds the last digits of the scaled number |
| ParmBuffer.UnpackBytes | src_c/Library/MTCParm.cpp:273-303 | the value of the nibbles in front of the sign, divided by the decimals |
| ParmBuffer.DigitsToReal | src_c/Library/MTCParm.cpp:284-300 | the two digit loops give the digits' value over a power of ten |
| ParmBuffer.ZoneText | src_c/Library/MTCParm.cpp:123-137 | every character becomes a zoned byte, the last carries the sign, and the field is cut to its last bytes |
| ParmBuffer.PackedForm | src_c/Library/MTCParm.cpp:205-236 | the bytes of a packed field: where digits and sign stand, for both parities |
| ParmBuffer.PackedFormWhole | src_c/Library/MTCParm.cpp:205-236 | the same without decimals, one digit longer, which puts a 0 in front of the sign |
| ParmBuffer.NoSign | src_c/Library/MTCParm.cpp:273-303 | a field in which no nibble is a sign is read as 0 |
| ParmBuffer.ZonedSign | src_c/Library/MTCParm.cpp:306-334 | a zoned field is read as negative exactly when its last byte is 0xD0 to 0xDF |
| ParmBuffer.CMTParm2.Clear | src_c/Library/MTCParm.cpp:80-84 | nothing is left to read |
| ParmBuffer.CMTParm2.SetLength | src_c/Library/MTCParm.cpp:72-78 | a length above the limit changes nothing, any other is stored, also a negative one |
| ParmBuffer.CMTParm2.WriteLong | src_c/Library/MTCParm.cpp:114-139 | accepted exactly below the limit; then the zoned field of the intended printed text is appended and nothing else changes |
| ParmBuffer.CMTParm2.WritePack | src_c/Library/MTCParm.cpp:183-238 | refused exactly above the limit; an accepted field is ten packed bytes behind the others, or an access out of bounds exactly where they or the digits do not fit |
| ParmBuffer.CMTParm2.ReadPack | src_c/Library/MTCParm.cpp:262-304 | refused exactly when the length does not allow it; the cursor moves by the length, the value is that of ten bytes, or the ten run over the buffer |
| ParmBuffer.CMTParm2.ReadNum | src_c/Library/MTCParm.cpp:306-334 | the value of the zoned bytes with each decimal counted as a tenth |
| ParmBuffer.CMTParm2.ReadLong | src_c/Library/MTCParm.cpp:336-341 | the same without decimals, as an integer |
| DecimalRoundTrip.PackedRoundTrip | src_c/Library/MTCParm.cpp:183-304 | reading back gives the last leng digits of the scaled number with its sign; ten times as much without decimals |
| DecimalRoundTrip.PackedExact | src_c/Library/MTCParm.cpp:183-304 | with decimals the number comes back exactly when it has at most leng digits |
| DecimalRoundTrip.PackedWholeFails | src_c/Library/MTCParm.cpp:183-304 | without decimals exactly for 0 |
| DecimalRoundTrip.PackedAccuracy | src_c/Library/MTCParm.cpp:183-304 | within range the result is the number to half a unit of its last decimal |
| DecimalRoundTrip.PackThenRead | src_c/Library/MTCParm.cpp:183-304 | WritePack and ReadPack on one buffer: which widths are accepted, and the value returned |
| DecimalRoundTrip.PackBehind | src_c/Library/MTCParm.cpp:183-304 | WritePack behind other fields, for every width: what the ten bytes are worth, above 18 digits as for 18 |
| DecimalRoundTrip.ZonedForm | src_c/Library/MTCParm.cpp:123-137 | the bytes of a zoned field: 0xF0 and the digit, in the last one 0xC0 or 0xD0 |
| DecimalRoundTrip.ZonedRoundTrip | src_c/Library/MTCParm.cpp:114-341 | what ReadNum returns for the field of the intended printed text, for any number and any width |
| DecimalRoundTrip.ZonedExact | src_c/Library/MTCParm.cpp:114-341 | the number itself exactly when it fits; a negative one must fill its field |
| DecimalRoundTrip.ZonedSequence | src_c/Library/MTCParm.cpp:114-341 | a list of such fields is read value by value and the reading ends where the writing ended |
| DecimalRoundTrip.ZoneThenRead | src_c/Library/MTCParm.cpp:87-341 | WriteLong calls given the intended printed text and ReadNum calls on one buffer do that, with both cursors within bounds |
| DecimalRoundTrip.TenthsExact | src_c/Library/MTCParm.cpp:306-334 | the decimals are right exactly when all but the first are 0 |
| Wire.MTObjectOut.WriteByte | src/com/gtone/cf/rt/connect/impl/cagent/MTObjectOut.java:71-93 | one byte appended, refused exactly when the buffer is full and the limit has reached 1000000; the limit follows |
| Wire.MTObjectOut.WriteString | src/com/gtone/cf/rt/connect/impl/cagent/MTObjectOut.java:114-134 | two length bytes and the payload appended |
| Wire.MTObjectOut.WriteInt | src/com/gtone/cf/rt/connect/impl/cagent/MTObjectOut.java:100-103 | the decimal text as a string |
| Wire.MTObjectOut.WriteByteFile | src/com/gtone/cf/rt/connect/impl/cagent/MTObjectOut.java:136-150 | the length as a text field, then the payload |
| Wire.MTObjectOut.WriteLongString | src/com/gtone/cf/rt/connect/impl/cagent/MTObjectOut.java:176-198 | the same bytes as a byte file |
| Wire.MTObjectIn.ReadByte | src/com/gtone/cf/rt/connect/impl/cagent/MTObjectIn.java:41-49 | the next byte, 0 at the end |
| Wire.MTObjectIn.ReadString | src/com/gtone/cf/rt/connect/impl/cagent/MTObjectIn.java:75-96 | value, bytes taken and failure for every input, with the extra byte for length 26990 |
| Wire.MTObjectIn.ReadInt | src/com/gtone/cf/rt/connect/impl/cagent/MTObjectIn.java:57-67 | the integer of the text, 0 whatever goes wrong |
| Wire.MTObjectIn.ReadFileByte | src/com/gtone/cf/rt/connect/impl/cagent/MTObjectIn.java:176-208 | length text, then that many bytes |
| Wire.MTObjectIn.ReadLongString | src/com/gtone/cf/rt/connect/impl/cagent/MTObjectIn.java:98-122 | trimmed length text without the special case, then that many bytes |
| WireRoundTrip.TextExact | src/com/gtone/cf/rt/connect/impl/cagent/MTObjectIn.java:75-96 | a string is read back, and read to its end, exactly when its length is below 65536 and not 26990, or it is 26990 zeros at the end of the message |
| WireRoundTrip.FieldBack | src/com/gtone/cf/rt/connect/impl/cagent/MTObjectOut.java:71-198 | every kind of field that fits is read back, whatever follows |
| WireRoundTrip.SequenceBack | src/com/gtone/cf/rt/connect/impl/cagent/MTObjectOut.java:71-198 | a mixed sequence is read back exactly, with the cursor behind its last byte |
| WireRoundTrip.WriteFields | src/com/gtone/cf/rt/connect/impl/cagent/MTObjectOut.java:71-198 | a run of writes appends the accepted fields in order |
| WireRoundTrip.ReadFields | src/com/gtone/cf/rt/connect/impl/cagent/MTObjectIn.java:41-208 | a run of reads is the run of decodings, up to the first failure |
| WireRoundTrip.WriteThenRead | src/com/gtone/cf/rt/connect/impl/cagent/MTObjectIn.java:41-208 | writing into a buffer and reading its bytes gives the accepted fields |
| WireRoundTrip.NothingRefused | src/com/gtone/cf/rt/connect/impl/cagent/MTObjectOut.java:71-93 | below 1000000 bytes every field is accepted |
| WireForm.StringForm | src/com/gtone/cf/rt/connect/impl/cagent/MTObjectOut.java:114-134 | the length of a string in two bytes, high one first, and its bytes |
| WireForm.NumberForm | src/com/gtone/cf/rt/connect/impl/cagent/MTObjectOut.java:100-103 | the bytes of a number: its length and its decimal digits |
| WireForm.ShortText | src/com/gtone/cf/rt/connect/impl/cagent/MTObjectIn.java:75-96 | a text that ends before its announced length is filled up with zeros |
| WireForm.ShortFile | src/com/gtone/cf/rt/connect/impl/cagent/MTObjectIn.java:176-208 | so are counted bytes |
| WireForm.ParseSigned | src/com/gtone/cf/rt/connect/impl/cagent/MTObjectIn.java:57-67 | an integer with any sign and any number of digits is read when 32 bits hold it |
| WireForm.ParseOther | src/com/gtone/cf/rt/connect/impl/cagent/MTObjectIn.java:57-67 | nothing else is an integer |
| WireForm.NoNumber | src/com/gtone/cf/rt/connect/impl/cagent/MTObjectIn.java:57-67 | ReadInt gives 0 for a text that is no integer |
| WireForm.NoLength | src/com/gtone/cf/rt/connect/impl/cagent/MTObjectIn.java:176-208 | a length that is no integer, or negative, fails behind the length |
| WireForm.TrimBetween | src/com/gtone/cf/rt/connect/impl/cagent/MTObjectIn.java:98-122 | the trim takes what is not above the blank from both ends, and nothing else |
| WireForm.PaddedLength | src/com/gtone/cf/rt/connect/impl/cagent/MTObjectIn.java:98-122 | ReadLongString takes a length with blanks around it |
| Reassembly.ConsumedBounds | src/com/gtone/cf/rt/connect/impl/cagent/CFAPI5J.java:927-978 | the reads take enough, less than twice as much, and leave the rest of the stream |
| Reassembly.ExactBlock | src/com/gtone/cf/rt/connect/impl/cagent/CFAPI5J.java:927-978 | a block is taken without bytes of what follows exactly when the first chunk holds it or a chunk ends with it |
| Reassembly.ReadTwice | src/com/gtone/cf/rt/connect/impl/cagent/CFAPI5J.java:927-978 | two connections that deliver the same bytes in different chunks end with the same block in their buffers |
| Reassembly.BigEndianIs | src/com/gtone/cf/rt/connect/impl/cagent/CFAPI5J.java:612-617 | the length read is the weighted sum of the four bytes, high one first, as a signed 32-bit number |
| Reassembly.BigEndianBytes | src/com/gtone/cf/rt/connect/impl/cagent/CFAPI5J.java:612-617 | every 32-bit number is read back from its four bytes |
| Reassembly.CFAPI5J.Append | src/com/gtone/cf/rt/connect/impl/cagent/CFAPI5J.java:952-960 | growing the buffer loses no byte |
| Reassembly.CFAPI5J.ReadByteStream | src/com/gtone/cf/rt/connect/impl/cagent/CFAPI5J.java:927-978 | the buffer begins with the bytes consumed, and the stream goes on behind them |
| Reassembly.CFAPI5J.CheckReceiveHeader | src/com/gtone/cf/rt/connect/impl/cagent/CFAPI5J.java:587-621 | the weighted sum of the first four header bytes, high one first, as a signed 32-bit number, or -1 |
| Reassembly.CFAPI5J.BuildResult | src/com/gtone/cf/rt/connect/impl/cagent/CFAPI5J.java:980-996 | return code, error code and message as they stand in the reply |
| Reassembly.CFAPI5J.Receive | src/com/gtone/cf/rt/connect/impl/cagent/CFAPI5J.java:1039-1058 | the outcome of header and body for every framed stream, also for one that ends with the header |
| Reassembly.CFAPI5J.ReceiveReply | src/com/gtone/cf/rt/connect/impl/cagent/CFAPI5J.java:1039-1058 | when the header announces the length of the reply byte by byte and no read crosses its end, a reply delivers exactly its body or its message, wherever else the reads cut it |
| Reassembly.ReplyRead | src/com/gtone/cf/rt/connect/impl/cagent/CFAPI5J.java:980-996 | the three reads of a reply, whatever stands behind it |
| Reassembly.CFAPI5J.BuildSendHeader | src/com/gtone/cf/rt/connect/impl/cagent/CFAPI5J.java:530-545 | fifty bytes are appended: the size as text, then zeros |
| Reassembly.SendHeaderSays | src/com/gtone/cf/rt/connect/impl/cagent/CFAPI5J.java:530-545 | the header is 50 bytes long, atoi reads the size from it, and behind the size are zeros |
| StaticResult.CMRStaticResult.GetStaticResult | src_c/Runner/MRSTARES.cpp:27-37 | the head of the list of nodes |
| StaticResult.CMRStaticResult.MetisAlloc | src_c/Runner/MRSTARES.cpp:137-159 | the account grows by the size of the new block; a size of 0 gives none |
| StaticResult.CMRStaticResult.MetisFree | src_c/Runner/MRSTARES.cpp:166-171 | a block is freed once, while it is allocated, and the account shrinks by its size |
| StaticResult.CMRStaticResult.CopyRow | src_c/Runner/MRSTARES.cpp:62-77 | one new record with a copy of the value block, linked behind the last, owned by the new node |
| StaticResult.CMRStaticResult.CopyRows | src_c/Runner/MRSTARES.cpp:58-77 | an equal record list, of new memory only; the account grows by the size of that memory |
| StaticResult.CMRStaticResult.AddStaticResult | src_c/Runner/MRSTARES.cpp:39-82 | an entry equal to the given one is put in front; nothing of it is shared; only the cache object changes; the account grows by a node, a record for each row and a value for each row and column |
| StaticResult.CMRStaticResult.DeleteResRec | src_c/Runner/MRSTARES.cpp:84-95 | every record and block of the list is freed once, and the account shrinks by the sizes of what was freed |
| StaticResult.CMRStaticResult.Drop | src_c/Runner/MRSTARES.cpp:109-118 | one node leaves the list, exactly its memory is freed, the others stay what they are |
| StaticResult.CMRStaticResult.DelRuleResult | src_c/Runner/MRSTARES.cpp:97-124 | exactly the nodes of the id go and are freed, the order stays, id 0 does nothing |
| StaticResult.CMRStaticResult.DropHead | src_c/Runner/MRSTARES.cpp:129-134 | the head leaves the list, exactly its rows are freed, and the node is lost |
| StaticResult.CMRStaticResult.DelRuleResultAll | src_c/Runner/MRSTARES.cpp:126-135 | the list is empty, every node is lost, and the account is what the lost nodes cost |
| StaticResult.CMRStaticResult.FootprintAt | src_c/Runner/MRSTARES.cpp:97-124 | taking an entry out of the list lowers the footprint by its size |
| StaticResult.CMRStaticResult.RowsSizeIs | src_c/Runner/MRSTARES.cpp:58-77 | n rows cost n records and n times a value for each column |
| StaticResult.CMRStaticResult.NothingShared | src_c/Runner/MRSTARES.cpp:39-82 | no node, record or block appears twice in the list |
| StaticResult.OwnedElsewhere | src_c/Runner/MRSTARES.cpp:117-118 | freeing all of one node takes nothing from another |
| StaticResult.WithoutMembers | src_c/Runner/MRSTARES.cpp:97-124 | a deletion leaves an entry exactly when it was there and has another id |
| StaticResult.WithoutNone | src_c/Runner/MRSTARES.cpp:97-124 | it changes nothing exactly when no entry has the id |
| StaticResult.WithoutCommutes | src_c/Runner/MRSTARES.cpp:97-124 | deletions of two ids commute |
| StaticResult.WithoutConcat | src_c/Runner/MRSTARES.cpp:97-124 | a deletion works on the parts of a list one by one |
| StaticResult.AddAll | src_c/Runner/MRSTARES.cpp:27-82 | a head taken earlier stands for the same entries after any number of additions |
| StaticResult.OneOp | src_c/Runner/MRSTARES.cpp:39-135 | one call: the entries, the nodes lost, and which nodes stay readable |
| StaticResult.Run | src_c/Runner/MRSTARES.cpp:39-171 | over every run that reads no freed memory: the entries, the nodes lost, and the account, which is the size of all the memory in use, piece by piece, and at once the footprint of the list and of the lost nodes |
| TraceList.CBRTrace.SameItems | src_c/Runner/BRTrace.cpp:203-230 | the item loop says whether all items of the node have their values |
| TraceList.WrittenItem | src_c/Runner/BRTrace.cpp:203-230 | an item written for a value matches that value and no other of its kind |
| TraceList.OtherItems | src_c/Runner/BRTrace.cpp:203-230 | a double matches exactly the text that converts to it, a value of an untraced type nothing |
| TraceList.WrittenFits | src_c/Runner/BRTrace.cpp:191-230 | a trace written for some values fits exactly a run of its program with those values |
| TraceList.CBRTrace.FindFit | src_c/Runner/BRTrace.cpp:191-248 | the first node that fits, and the one before it |
| TraceList.CBRTrace.IsTrace | src_c/Runner/BRTrace.cpp:164-251 | fires exactly when some node fits; the first one leaves the list, the rest keeps its order; with the flags on the list stays; without data or a trace id nothing fires |
| TraceList.CBRTrace.DelTraceInfo | src_c/Runner/BRTrace.cpp:124-152 | only the first node with the id leaves the list |
| TraceList.CBRTrace.Unlink | src_c/Runner/BRTrace.cpp:144-148 | one node leaves the list, the links of the others are those of the shorter list |
| TraceList.OneCall | src_c/Runner/BRTrace.cpp:124-251 | one call answers for the list it finds, and takes out the first node that fits or has the id, or none |
| TraceList.Run | src_c/Runner/BRTrace.cpp:124-251 | over every run each call does so on the list the ones before left; a fired node's id is reported |
| TraceList.FiresOnce | src_c/Runner/BRTrace.cpp:124-251 | in such a run the nodes that fire or are deleted are pairwise distinct |
| TraceList.NeverBack | src_c/Runner/BRTrace.cpp:124-251 | a node that has left is in no later list |
| TraceList.OthersStay | src_c/Runner/BRTrace.cpp:124-251 | what is left at any time are the other nodes, in their order |
| Chains.MinusOne | src_c/Runner/BRTrace.cpp:235-241 | the nodes left after one more leaves are the list with that place cut out |
| Chains.MinusMembers | src_c/Runner/BRTrace.cpp:235-241 | a node is left exactly when it was there and has not gone |
| Profile.CMTProfile.Read | src_c/Library/MTPrfile.cpp:476-494 | the next character, or the end with the flag set |
| Profile.CMTProfile.Unread | src_c/Library/MTPrfile.cpp:496-511 | one character back, or only the flag cleared |
| Profile.CMTProfile.SkipSpace | src_c/Library/MTPrfile.cpp:459-465 | the cursor at the next character that is no blank; one further with the flag left set |
| Profile.CMTProfile.SkipLine | src_c/Library/MTPrfile.cpp:467-474 | the cursor behind the line end |
| Profile.CMTProfile.GoSection | src_c/Library/MTPrfile.cpp:344-387 | ends on every file; where it stops, and in which state of the flag |
| Profile.CMTProfile.GoEntry | src_c/Library/MTPrfile.cpp:389-426 | the same for the entry |
| Profile.CMTProfile.CutUnprintable | src_c/Library/MTPrfile.cpp:450-454 | the backward loop leaves the longest printable prefix |
| Profile.CMTProfile.GetValue | src_c/Library/MTPrfile.cpp:428-457 | the value in the buffer |
| Profile.CMTProfile.LookUp | src_c/Library/MTPrfile.cpp:293-299 | the three searches from the start of the file, whatever the flag was; the code that combines them is disabled |
| ProfileLines.SectionByLine | src_c/Library/MTPrfile.cpp:344-387 | GoSection finds the first line that is a header of the name, in any letter case |
| ProfileLines.EntryByLine | src_c/Library/MTPrfile.cpp:389-426 | GoEntry finds the first line for the name in front of the first line that stops the search |
| ProfileLines.ValueByLine | src_c/Library/MTPrfile.cpp:428-457 | GetValue reads nothing behind its line |
| ProfileLines.LookUpByLine | src_c/Library/MTPrfile.cpp:344-457 | the three searches are one look-up by lines, on every file |
| ProfileLines.StaleFlagExactly | src_c/Library/MTPrfile.cpp:344-387 | for every text, when GoSection finds the same with the flag left set, as a condition on the first two lines |
| ProfileLines.LookAgain | src_c/Library/MTPrfile.cpp:344-387 | a search behind a failed one answers like a fresh one exactly then |
| Profile.SameNameExactly | src_c/Library/MTPrfile.cpp:344-426 | names are the same when each letter is, in either case |
| ProfilePrint.PrintedByLines | src_c/Library/MTPrfile.cpp:344-457 | in a written file: the value of the first setting of the name between the first header of the section and the next header |
| ProfilePrint.PrintThenLookUp | src_c/Library/MTPrfile.cpp:344-457 | the three searches on a written file find that value |
| IniKey.Fgets | src_c/Library/MTPrfile.cpp:242-242 | a line, or 1023 characters of it |
| IniKey.TakeValue | src_c/Library/MTPrfile.cpp:250-255 | the text behind the equals sign without blanks in front and without the last character of the line |
| IniKey.GetIniKeyString | src_c/Library/MTPrfile.cpp:230-267 | the look-up over the lines still unread, from any position |
| IniKey.FindKeyIs | src_c/Library/MTPrfile.cpp:242-265 | the result is the first line that sets the key behind the first header line, to the end of the file |
| IniKey.ReadString | src_c/Library/MTPrfile.cpp:269-292 | the value or the default, cut to the buffer and at the first blank |
| IniKey.ReadLong | src_c/Library/MTPrfile.cpp:87-98 | atoi of the value, or the default |
| IniKey.FieldExact | src_c/Library/MTPrfile.cpp:278-289 | a value passes ReadString whole exactly when it fits and holds no blank and no line end |
| IniPrint.ChunksOfFlat | src_c/Library/MTPrfile.cpp:242-242 | reading a written file line by line gives the written lines |
| IniPrint.PairLineIs | src_c/Library/MTPrfile.cpp:243-256 | what a written pair is taken for, whatever is asked for |
| IniPrint.HeaderLineIs | src_c/Library/MTPrfile.cpp:259-263 | a written header is the header of its own name only |
| IniPrint.PrintThenLookUp | src_c/Library/MTPrfile.cpp:230-267 | in a written file the first pair from the first block of the name on whose key begins with the key is found |
| IniPrint.PrintThenRead | src_c/Library/MTPrfile.cpp:269-292 | ReadString on a written file, or the default |
| IniPrint.ReadBack | src_c/Library/MTPrfile.cpp:230-267 | a pair is read back exactly when the first pair found by prefix has its value |
| IniPrint.SpillsOver | src_c/Library/MTPrfile.cpp:246-258 | a key of a later block is found in an earlier one that lacks it |
| IniPrint.PrefixHides | src_c/Library/MTPrfile.cpp:248-248 | a longer key in front hides the key |
| IniPrint.BlanksGo | src_c/Library/MTPrfile.cpp:250-255 | blanks behind the equals sign, and the last character of the line, do not belong to the value |
| IniPrint.CommentLine | src_c/Library/MTPrfile.cpp:243-245 | a line that begins with `//` or `#` changes nothing |
| IniPrint.LongLine | src_c/Library/MTPrfile.cpp:242-242 | a longer line is read in pieces of 1023 characters |
| IniPrint.FieldIs | src_c/Library/MTPrfile.cpp:278-289 | what comes through ReadString of any value: its front, as long as it fits and holds no blank and no line end |
| IniPrint.PrintThenReadLong | src_c/Library/MTPrfile.cpp:87-98 | ReadLong on a written file: atoi of the first value found by prefix, the number itself when it is a numeral, or the default |
| SortSpec.ReadDigits | src_c/Runner/MRLODRUL.cpp:640-644 | the value of the run of digits, and where it ends |
| SortSpec.OneTurn | src_c/Runner/MRLODRUL.cpp:638-652 | one turn stores one column and moves to the next |
| SortSpec.LoadRuleAggr | src_c/Runner/MRLODRUL.cpp:618-660 | nothing, the columns with the 0 behind them, or a store behind the arrays, for every text |
| SortSpecPrint.TurnConsumes | src_c/Runner/MRLODRUL.cpp:638-652 | a turn takes something of every text it can read and never passes a foreign character |
| SortSpecPrint.Ends | src_c/Runner/MRLODRUL.cpp:637-655 | the loop reaches the end exactly when every printing character is a digit, `A`, `D` or a comma |
| SortSpecPrint.ReadsBack | src_c/Runner/MRLODRUL.cpp:637-655 | a written list of columns is read back with its directions, `A` where none is written |
| SortSpecPrint.WrittenColumnsLoad | src_c/Runner/MRLODRUL.cpp:618-660 | up to nine written columns are loaded as written, whatever blanks stand around the commas and at the end |
| SortSpecPrint.PrintThenLoad | src_c/Runner/MRLODRUL.cpp:618-660 | LoadRuleAggr on a written list stores its columns and the 0 behind them |

## Left out

- Sockets, threads and locks: the guarded methods are atomic here, and a socket is the sequence of chunks it delivers.
- A stream that ends inside the refill loop of `readByteStream`: the loop never returns then, so enough bytes are a precondition.
- JSON and map plumbing of the connector, the command samples, and the stub functions of the rule loader.
- Decryption in the ini reader: its calls are disabled in the source.
- `WriteDbl` and `CMTParm2::WriteString`: no general round trip holds for them.
- Byte reversal in `MTConvt`: reversing twice is the identity, which adds nothing hard.
- ParmBuffer.CMTParm2.WriteLong: takes the printed text as a parameter, because its format string at src_c/Library/MTCParm.cpp:123 has no conversion letter; the round trips take it as "%0<leng>ld" is documented to print.
- ParmBuffer.CMTParm2.WritePack: takes the scaled and rounded integer as a parameter, because IEEE rounding is not modelled; numbers are reals. What an access out of bounds does is not modelled: it is an outcome, and so is the refusal.
- ParmBuffer.CMTParm2.ReadNum: adds decimals as exact tenths, because binary rounding is not modelled.
- Reader.GetItemCd: atoi is unbounded here; overflow of the C type is not modelled.
- QueryRule.QRuleData.ParseQueryRule: models the branch that prints ":v%02d"; the branch for MySQL and Postgres, which prints a question mark and three blanks, has the same positions and no names.
- Fixed C buffers (temporary strings, titles, lines of 30000 characters): inputs are taken to fit. The 1023 characters of one fgets and the ten places of the sort list are modelled.
- BranchRule.ParseBranchRule: the chain of nodes is a sequence; the links of this list are not modelled.
- ResultBuilder.GetResultRecType: token chains are sequences, and the order of the token types, from a header, is reduced to constants, parentheses, comma and the rest.
- ResultBuilder.BuildResultSingleRec: the union of a value is one constructor for each type; reading a text or a double through another member of the union is not modelled.
- Wire.MTObjectIn.ReadString: texts are byte sequences without character sets, and the input is a snapshot of the array it was made from.
- StaticResult.CMRStaticResult.AddStaticResult: a failing malloc and the padding of the Windows build are not modelled; sizes are parameters, and the column count of a rule does not change.
- StaticResult.Run: a source that an earlier call of the run frees is excluded, because the source program would read freed memory.
- TraceList.CBRTrace.IsTrace: the item array that a fired node leaks is not modelled; atof and the item values of the caller are parameters. The registration of traces is disabled in the source, so a run starts from any list.
- Profile.CMTProfile.Read: a file that could not be opened is not modelled, nor the carriage returns of the Windows build; letters and digits are those of ASCII.
- IniKey.ReadString: the file look-up uses `fgets` from the start; what the characters behind the terminator hold is not modelled.
- SortSpec.LoadRuleAggr: the index is kept as the short it is stored in; the overflow of the int it is computed in is not modelled.
