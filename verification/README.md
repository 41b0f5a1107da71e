# A verified model of learnandtraining

The repository is a C++ web scanner with the libraries it uses. This project models the three that carry the
most state and arithmetic and proves what they promise:

* **zlib checksums** (`zlib/crc32.c`, `zlib/adler32.c`). The table generator, the byte-wise and the two
  word-at-a-time CRC loops compute one function, the remainder of polynomial division of section 8 of
  RFC 1952. `crc32_combine` and `adler32_combine` give the checksum of a concatenation. The deferred
  reduction of Adler-32 never overflows, and the constant NMAX is the largest for which that holds.
* **Gumbo's HTML5 tree construction** (`html_parser/parser.cpp`, `utf8.cpp`, `string_buffer.cpp`). The
  stack of open elements, the list of active formatting elements and the node tree form one state
  machine. Insertion, foster parenting, reconstruction, the closers and the adoption agency algorithm
  keep the tree coherent. Each is proved equal to a function on values, and about that function it is
  proved that a round of the adoption agency loses no node, keeps the leaves of the document in order
  and adds clones only; a round in a table moves the leaves of the block in front of the table's. Over
  every run of elements opened and closed, markers, clearings, reconstructions, foster parenting switched
  on and off, and whole adoption agencies, the "Noah's Ark" bound holds and it is known how much of the
  stack is fit for the next adoption agency. The UTF-8 writer and the UTF-8 iterator are inverse to each
  other, up to what HTML replaces.
* **TinyXML** (`tinyxml/tinyxml.cpp`, `tinyxmlparser.cpp`). A recursive-descent parser, a printer and
  doubly linked child lists. Printing a document in any layout and parsing the text gives the document
  back. Every run of link edits leaves the list that the same edits make of a sequence.

Operations that change objects in the source are methods of classes here; each is proved against a
function on values, and the laws are lemmas about those functions. What the functions themselves are is
stated apart from their bodies, on the text, the tags and the numbers as they are written: which bytes
and characters are read, printed and refused (`XmlChars`, `XmlSurface`, `XmlNodes`, `XmlLayout`, the last
lemmas of `Utf8`) and which elements the searches stop at (`GumboLaws`).

| modules | subject |
|---|---|
| `Words`, `Crc32Spec`, `Crc32Tables`, `Crc32Loops`, `Crc32Combine` | CRC-32: definition, tables, loops, combination |
| `Adler32` | Adler-32 |
| `Utf8`, `StringBuffers`, `Utf8Iterators` | UTF-8: definition, writer, iterator |
| `XmlText`, `XmlRead`, `XmlPrint`, `XmlParse`, `XmlRoundTrip`, `XmlParser`, `XmlLinks` | TinyXML: escaping, lexical reading, printer, grammar, round trip, parser object, child lists |
| `XmlChars`, `XmlSurface`, `XmlNodes`, `XmlLayout` | TinyXML on written text: references and names, attributes and tags, the other nodes and the document, what is printed |
| `GumboTags`, `GumboTree`, `GumboStack`, `GumboActive`, `GumboParser`, `GumboLaws` | Gumbo: tags, tree edits, scopes, formatting list, parser object, the laws of scopes, modes and the list |
| `GumboAdoption`, `GumboRound`, `GumboReady`, `GumboFoster`, `GumboOutcome`, `GumboAgency` | the adoption agency: a round on values, its stack and list, readiness for the next, rounds in tables, the outcomes of a round, the methods |
| `GumboLeaves`, `GumboOrder`, `GumboTreeRuns`, `GumboFosterTree`, `GumboCycles` | trees and leaves, a round on a tree, a run on a tree, a round in a table on a tree, when such a round leaves no tree |
| `GumboMarkers`, `GumboTables`, `GumboRuns`, `GumboExamples` | the list over a run of rounds, runs where parts of tables stand in tables, runs of everything that changes stack and list, inputs where a property fails |

## What turned out false

* The one-byte path of `adler32` (`zlib/adler32.c:78-86`) subtracts the modulus once. It agrees with the
  definition exactly when the new upper sum is below twice the modulus (`Adler32.OneByteExact`);
  0xffff in the upper half is an exception (`Adler32.OneByteCanDiffer`). Every checksum the file returns
  is reduced and safe (`Adler32.OneByteReduced`).
* `adler32_combine` subtracts the modulus at most twice from the lower sum and at most three times from the
  upper one. For any 32-bit checksums it meets the formula exactly when both sums are small enough for that
  (`Adler32.Combine`), as they are for reduced checksums (`Adler32.CombinesReduced`) and are not with
  65535 in both lower halves (`Adler32.CombineCanFail`).
* `MOD28` is named for values below 2^28 but is exact exactly while one subtraction suffices
  (`Adler32.Mod28`).
* Marking and resetting the UTF-8 iterator restores the character except at a line feed that came from an
  overlong carriage return, whose first byte is skipped (`Utf8Iterators.Reread`,
  `Utf8Iterators.RereadCanDiffer`).
* Encoding what was decoded gives the bytes back exactly when they were not overlong
  (`Utf8.EncodeOfHead`).
* `EncodeString` copies hexadecimal references, so a value comes back from a printed attribute, for each
  text behind it, exactly when it holds none (`XmlRead.ReadsValueExactly`, `XmlRead.ReferenceIsExpanded`).
* Text between tags comes back, for each white space and each text behind it, exactly when it holds no
  hexadecimal reference and its white space is condensed already (`XmlRead.ReadsTextExactly`). The
  text `&#x41;` is condensed and does not come back (`XmlRead.TextReferenceIsExpanded`).
* Attribute matching is not symmetric when a name occurs twice (`GumboActive.MatchNeedsUnique`); with
  unique names it is equality of the attribute sets (`GumboActive.MatchIsSamePairs`).
* When `foster_parent_element` finds no table to insert before, it pushes the node itself, so
  `insert_element` pushes it twice (`GumboParser.Parser.InsertElement`). In a round of the adoption agency
  this leaves an element open twice. It happens exactly when no table is open from the third position
  on, the visited elements not counting, when the topmost one is not under an element, or when it is the
  furthest block and no visited element is on the list (`GumboFoster.PushesExactly`,
  `GumboAgency.FosterRound`). A tr without a table, a b and a p are such a stack
  (`GumboExamples.PushedBlock`), which the insertion modes do not build. No other round leaves the stack
  unfit for the next (`GumboOutcome.FollowsReady`). Where every open part of a table has a table at or below
  it, a fostered insertion finds its table (`GumboTables.TabledHasTable`) and no run of the adoption
  agency pushes, unless the furthest block is a table (`GumboTables.RunsInTables`).
* A round of the adoption agency in a table keeps the block in the tree exactly when the node was pushed or
  the topmost table is open below the block (`GumboCycles.TreeExactly`, `GumboCycles.FosterRoundOnTree`).
  Otherwise the last node goes in front of a table that is under it and becomes its own descendant. A tr,
  a b, a p and a table are such a stack (`GumboExamples.LostBlock`); scope keeps the adoption agency
  from it unless the tag of the formatting element is open again above the table
  (`GumboFoster.TableBlockNeedsTwin`).
* After a round of the adoption agency the open elements lie on the rightmost path of the tree exactly
  when at most three elements are between the formatting element and the furthest block
  (`GumboOrder.RoundOnPath`, `GumboAgency.RoundOnTree`). A b, four spans and a p are the exception
  (`GumboExamples.DeepBlock`).

## Model

| member | source | states |
|---|---|---|
| `Crc32Spec.StepsLinear` | zlib/crc32.c:65-89 | feeding zeros is linear over exclusive-or: the sum of two registers is stepped as the sum of the stepped registers |
| `Crc32Spec.BytesAreBits` | zlib/crc32.c:69-82 | taking a message byte by byte is taking its bits one by one, least significant first |
| `Crc32Spec.CrcContinues` | zlib/crc32.c:204-236 | a checksum may be continued: the CRC of a concatenation is the CRC of the second part started from that of the first |
| `Crc32Spec.FeedBytesAffine` | zlib/crc32.c:355-408 | the register splits into what it held on entry, shifted by zero bits, and what the message alone contributes |
| `Crc32Spec.CrcAffine` | zlib/crc32.c:204-236 | the same for complete checksums with their pre- and post-conditioning, from any starting value |
| `Crc32Spec.CrcConcat` | zlib/crc32.c:355-408 | the checksum of a concatenation is the first checksum moved over as many zero bits as the second part has, plus the second checksum |
| `Crc32Spec.PolyIsGenerator` | zlib/crc32.c:95-108 | the bits of 0xedb88320 are the coefficients of the generator polynomial, highest power in the lowest bit |
| `Crc32Spec.RegisterDivides` | zlib/crc32.c:65-82 | from any register the shift register computes the remainder of schoolbook long division of the message times x^32 |
| `Crc32Spec.CrcIsDivision` | zlib/crc32.c:65-82 | the CRC of a message is the complemented remainder of the division by the generator, with the first 32 coefficients complemented (section 8 of RFC 1952) |
| `Crc32Tables.MakePolynomial` | zlib/crc32.c:105-108 | or-ing the listed terms together gives the exclusive-or pattern the definition uses |
| `Crc32Tables.PolyFromBits` | zlib/crc32.c:97-108 | an integer with exactly the bits of the listed terms is 0xedb88320 |
| `Crc32Tables.ShiftByte` | zlib/crc32.c:112-114 | the inner loop of the generator is eight register steps |
| `Crc32Tables.EntryIsSteps` | zlib/crc32.c:118-129 | the entry k of the family of tables for a byte is that byte followed by k zero bytes run through the register |
| `Crc32Tables.NextEntry` | zlib/crc32.c:124-126 | one more zero byte is a lookup in the first table and a shift |
| `Crc32Tables.FillColumn` | zlib/crc32.c:121-129 | the loop fills the four entries of a byte and their byte swaps and no other entry |
| `Crc32Tables.MakeCrcTable` | zlib/crc32.c:90-138 | all eight tables hold for every byte what the word-at-a-time loops need of them |
| `Crc32Tables.ByteLookup` | zlib/crc32.c:200 | one table lookup and a shift is eight register steps with the byte mixed in |
| `Crc32Tables.FeedLittleEndian` | zlib/crc32.c:241-243 | up to four bytes may be mixed into the register at once as a little-endian word |
| `Crc32Tables.WordLookup` | zlib/crc32.c:241-243 | four lookups in four tables are thirty-two register steps |
| `Crc32Loops.UpdateByte` | zlib/crc32.c:200 | feeds one byte to the register |
| `Crc32Loops.CrcByteWise` | zlib/crc32.c:227-235 | unrolled by eight and with its tail, computes the CRC of the buffer from any starting value |
| `Crc32Loops.UpdateWordLittle` | zlib/crc32.c:241-243 | feeds the four bytes of a little-endian load |
| `Crc32Loops.WordsLittle` | zlib/crc32.c:262-271 | DOLIT32 and DOLIT4 feed whole words until fewer than four bytes remain |
| `Crc32Loops.CrcLittle` | zlib/crc32.c:247-278 | computes the same CRC for every buffer and every alignment |
| `Crc32Loops.SwappedLookup` | zlib/crc32.c:281-283 | on a byte-swapped register four lookups in the swapped tables feed the four bytes of a big-endian load |
| `Crc32Loops.UpdateByteBig` | zlib/crc32.c:297-300 | the byte step on a byte-swapped register feeds one byte |
| `Crc32Loops.UpdateWordBig` | zlib/crc32.c:281-283 | feeds the four bytes of a big-endian load to the byte-swapped register |
| `Crc32Loops.WordsBig` | zlib/crc32.c:302-313 | DOBIG32 and DOBIG4 feed whole words until fewer than four bytes remain |
| `Crc32Loops.CrcBig` | zlib/crc32.c:287-320 | computes the same CRC for every buffer and every alignment |
| `Crc32Loops.Crc32` | zlib/crc32.c:204-236 | all three builds return the CRC of the buffer; a null buffer returns the initial value whatever was passed |
| `Crc32Combine.TimesLinear` | zlib/crc32.c:327-341 | multiplying by a matrix is linear over exclusive-or |
| `Crc32Combine.MatrixTimes` | zlib/crc32.c:327-341 | the loop over the bits of the vector computes the matrix product |
| `Crc32Combine.SquareComposes` | zlib/crc32.c:344-352 | the square of a matrix acts as the matrix applied twice |
| `Crc32Combine.SquareDoubles` | zlib/crc32.c:344-352 | the square of the operator for n zero bits is the operator for 2n |
| `Crc32Combine.MatrixSquare` | zlib/crc32.c:344-352 | fills the array with the square |
| `Crc32Combine.OneBitFeeds` | zlib/crc32.c:369-375 | the matrix of the polynomial and the powers of two feeds one zero bit |
| `Crc32Combine.OneZeroBit` | zlib/crc32.c:369-375 | builds that matrix |
| `Crc32Combine.ApplyDigit` | zlib/crc32.c:385-403 | one binary digit of the length contributes that many zero bytes |
| `Crc32Combine.Turn` | zlib/crc32.c:387-390 | one half of the loop doubles the operator and applies one digit |
| `Crc32Combine.AppendZeros` | zlib/crc32.c:385-403 | the doubling loop appends as many zero bytes as the length says |
| `Crc32Combine.Combine` | zlib/crc32.c:355-408 | moves the first checksum over 8 * len2 zero bits and adds the second; a length that is not positive returns the first |
| `Crc32Combine.CombineConcat` | zlib/crc32.c:355-408 | combining the checksums of any two messages gives the checksum of their concatenation |
| `Adler32.DeferredReduction` | zlib/adler32.c:104-129 | adding many bytes before one reduction gives the same sums as reducing after each byte |
| `Adler32.AdlerContinues` | zlib/adler32.c:65-133 | a checksum may be continued from the checksum of a first part |
| `Adler32.RawBound` | zlib/adler32.c:14-16 | an upper bound of both unreduced sums for any data, in terms of the number of bytes |
| `Adler32.RawClosed` | zlib/adler32.c:18-22 | from any sums, the lower unreduced sum is that of the bytes and the upper one that of the bytes times their distance from the end, as section 8.2 of RFC 1950 defines them |
| `Adler32.NmaxIsTight` | zlib/adler32.c:14-16 | for all reduced sums to start with and all data of n bytes the upper sum fits 32 bits, if and only if n is at most 5552 |
| `Adler32.NmaxFits` | zlib/adler32.c:14-16 | even from sums that were never reduced, NMAX bytes of any data fit 32 bits |
| `Adler32.Chop` | zlib/adler32.c:29-34 | keeps the residue modulo 65521 and says what the value shrinks to |
| `Adler32.Mod28` | zlib/adler32.c:35-39 | keeps the residue; is the remainder if and only if one subtraction suffices, which includes all values below 2^28 |
| `Adler32.Mod` | zlib/adler32.c:40-44 | is the remainder for every 32-bit value |
| `Adler32.Mod63` | zlib/adler32.c:45-57 | is the remainder for every non-negative signed 64-bit value |
| `Adler32.SumBlocks` | zlib/adler32.c:18-22 | DO16 in a row adds blocks of sixteen bytes without overflow |
| `Adler32.SumTail` | zlib/adler32.c:123-126 | the remaining bytes one by one, without overflow |
| `Adler32.SumLong` | zlib/adler32.c:104-133 | blocks of NMAX and the remainder give the definition's sums |
| `Adler32.SumShort` | zlib/adler32.c:93-102 | short buffers give the definition's sums with one conditional subtraction and one short reduction |
| `Adler32.UpdateOne` | zlib/adler32.c:78-86 | the single-byte path, including what it leaves unreduced |
| `Adler32.Checksum` | zlib/adler32.c:65-133 | every branch: a null buffer, one byte, short and long buffers, from any 32-bit starting value |
| `Adler32.OneByteExact` | zlib/adler32.c:78-86 | the one-byte path meets the definition if and only if the upper sum stays below twice the modulus |
| `Adler32.OneByteReduced` | zlib/adler32.c:78-86 | from reduced sums it always does |
| `Adler32.OneByteCanDiffer` | zlib/adler32.c:78-86 | an input where it does not |
| `Adler32.WideSums` | zlib/adler32.c:150-155 | both sums before the subtractions for any 16-bit halves, with their bounds |
| `Adler32.SubtractMultiples` | zlib/adler32.c:156-159 | the conditional subtractions keep both residues and reduce each sum if and only if it is below the bound given |
| `Adler32.Combine` | zlib/adler32.c:136-162 | for any two 32-bit checksums and every signed 64-bit length the result unpacks to the sums of the formula if and only if the two bounds hold; a negative length returns 0xffffffff |
| `Adler32.CombinesReduced` | zlib/adler32.c:136-162 | reduced checksums are within the bounds |
| `Adler32.CombineCanFail` | zlib/adler32.c:156-159 | checksums that are not |
| `Adler32.OrExactly` | zlib/adler32.c:160 | putting the two sums together with an or, overlapping bits and all, gives the reduced sums if and only if both were reduced |
| `Adler32.CombineResidues` | zlib/adler32.c:149-156 | the formula of the code and the closed formula have the same residues |
| `Adler32.AdlerFrom` | zlib/adler32.c:136-162 | what a checksum from any reduced start is, given the one from the initial value |
| `Adler32.AdlerConcat` | zlib/adler32.c:149-156 | the closed formula for both sums of a concatenation |
| `Adler32.CombineConcat` | zlib/adler32.c:136-162 | combining the checksums of any two messages gives the checksum of their concatenation |
| `Utf8.HeadOfEncoded` | html_parser/utf8.cpp:65-148 | decoding at the front of an encoded code point returns it with its full width, whatever follows |
| `Utf8.ScanComplete` | html_parser/utf8.cpp:118-139 | a character that was read and not replaced took the whole width its lead byte announces, from a lead byte that is not bad |
| `Utf8.HeadBrokenOff` | html_parser/utf8.cpp:118-139 | a sequence that breaks off after k bytes, for any announced width from two to seven, is one U+FFFD of exactly k bytes |
| `Utf8.HeadOfBadLead` | html_parser/utf8.cpp:65-148 | a complete sequence whose first byte is an error already is one U+FFFD of its full width |
| `Utf8.HeadOfStray` | html_parser/utf8.cpp:75-112 | a byte that can start nothing is one U+FFFD of one byte |
| `Utf8.ForbiddenPoints` | html_parser/utf8.cpp:141-148 | exactly these code points come back as U+FFFD: control characters, and the noncharacters of every plane; any other comes back as it was |
| `Utf8.RoundTrip` | html_parser/utf8.cpp:65-170 | reading an encoded list delivers it with forbidden characters replaced and line ends folded, for every list of code points |
| `Utf8.RoundTripPlain` | html_parser/utf8.cpp:65-170 | without carriage returns and forbidden characters the list comes back as it was |
| `Utf8.EncodeOfHead` | html_parser/utf8.cpp:65-148 | encoding a character that was read and not replaced gives its bytes back if and only if they were not overlong |
| `Utf8.ConvertUtf32ToUtf8` | tinyxml/tinyxmlparser.cpp:88-126 | encodes every code point as Gumbo does, splits any 21-bit value into recoverable groups, and gives no byte above |
| `StringBuffers.StringBuffer.constructor` | html_parser/string_buffer.cpp:48-53 | an empty buffer of the default capacity |
| `StringBuffers.StringBuffer.MaybeResize` | html_parser/string_buffer.cpp:31-46 | room for the bytes asked for, contents kept, reallocated only when needed and then to less than twice the need |
| `StringBuffers.StringBuffer.AppendCodePoint` | html_parser/string_buffer.cpp:61-85 | appends the UTF-8 encoding of the code point |
| `StringBuffers.StringBuffer.AppendString` | html_parser/string_buffer.cpp:87-93 | appends the bytes |
| `StringBuffers.StringBuffer.ToString` | html_parser/string_buffer.cpp:95-101 | a fresh copy of the contents with a terminating zero |
| `StringBuffers.Shape` | html_parser/string_buffer.cpp:63-79 | the number of continuation bytes is one less than the length of the encoding, and the prefix is its mark |
| `Utf8Iterators.Decode` | html_parser/utf8.cpp:66-148 | the decoding loop returns the character and width of the definition; what that is where a sequence breaks off, has a bad first byte or starts with none is `Utf8.HeadBrokenOff`, `Utf8.HeadOfBadLead` and `Utf8.HeadOfStray` |
| `Utf8Iterators.Utf8Iterator.constructor` | html_parser/utf8.cpp:193-208 | starts by reading the first character at line one, column one, offset zero, marked there; an empty input is at its end |
| `Utf8Iterators.Utf8Iterator.ReadChar` | html_parser/utf8.cpp:65-170 | reads the character at the cursor, folds a carriage return with or without its line feed, and reports the end |
| `Utf8Iterators.Utf8Iterator.UpdatePosition` | html_parser/utf8.cpp:172-183 | offset, line and column after the character left; a tab goes to the next tab stop |
| `Utf8Iterators.Utf8Iterator.Next` | html_parser/utf8.cpp:210-220 | moves to the byte after the current character, or to the end, and stays at the end; offset and line stay those of the cursor; the column is 1 behind a line feed, the next multiple of the tab stop behind a tab and one more behind anything else |
| `Utf8Iterators.Utf8Iterator.Mark` | html_parser/utf8.cpp:251-254 | remembers where the current character starts, with its offset and line |
| `Utf8Iterators.Utf8Iterator.Reset` | html_parser/utf8.cpp:257-261 | the iterator stands where reading at the mark puts it, and offset and line are those of the cursor again |
| `Utf8Iterators.Utf8Iterator.Advance` | html_parser/utf8.cpp:210-220 | any number of steps lead to the character that many characters on, or to the end, keeping the mark |
| `Utf8Iterators.Utf8Iterator.LookAhead` | html_parser/utf8.cpp:251-261 | mark, any number of steps and reset leave a well-formed iterator at the same byte, and restore character, width and position if and only if the current one is no folded overlong carriage return |
| `Utf8Iterators.Utf8Iterator.Drain` | html_parser/utf8.cpp:210-220 | reading to the end delivers exactly the characters of the rest of the input |
| `Utf8Iterators.DeliverFromSlice` | html_parser/utf8.cpp:65-170 | reading from a byte on delivers what reading the rest of the input alone delivers, so a folded line feed is never read twice |
| `Utf8Iterators.LineAtCursor` | html_parser/utf8.cpp:155-183 | the skipped half of a carriage return and line feed has no line of its own, overlong or not |
| `Utf8Iterators.Reread` | html_parser/utf8.cpp:257-261 | reading again where a character starts gives it again if and only if it is no line feed that starts at a continuation byte |
| `Utf8Iterators.RereadCanDiffer` | html_parser/utf8.cpp:155-165 | an input where it does not |
| `Utf8Iterators.WriteThenRead` | html_parser/string_buffer.cpp:61-85 | writing any code points to a buffer and iterating over it delivers them as HTML shows them |
| `XmlText.CopyReference` | tinyxml/tinyxml.cpp:75-81 | copies a hexadecimal reference up to its semicolon, or all but the last character without one |
| `XmlText.EncodeString` | tinyxml/tinyxml.cpp:52-133 | the loop computes the escaped text for every string |
| `XmlText.GetEscaped` | tinyxml/tinyxmlparser.cpp:438-531 | reading an escaped character gives it back, whatever the character and whatever follows |
| `XmlText.SumDigits` | tinyxml/tinyxmlparser.cpp:464-499 | fails at the first character that is no digit, and otherwise gives the low byte of the number |
| `XmlText.ReadNumber` | tinyxml/tinyxmlparser.cpp:447-512 | a numeric reference read backwards from its semicolon, with its failures |
| `XmlText.GetEntity` | tinyxml/tinyxmlparser.cpp:438-531 | numeric references, the five named entities, and an unknown one losing its ampersand, as `XmlChars.DecimalReference`, `XmlChars.NotDecimal` and their companions spell out |
| `XmlText.MatchEntity` | tinyxml/tinyxmlparser.cpp:514-530 | the loop over the entity table finds the named entity at the front, and otherwise drops the ampersand |
| `XmlText.CStringIsWhole` | tinyxml/tinyxml.cpp:1858-1885 | what is printed as a C string is printed whole if and only if it holds no NUL |
| `XmlText.TwoDigitReference` | tinyxml/tinyxmlparser.cpp:451-477 | a two-digit hexadecimal reference is read as its value, in either case |
| `XmlText.ControlReference` | tinyxml/tinyxml.cpp:108-123 | a control character written as a reference is read back |
| `XmlRead.SkipWhiteSpace` | tinyxml/tinyxmlparser.cpp:314-362 | stops at the first character that is no white space; null at the end of the text |
| `XmlRead.ReadName` | tinyxml/tinyxmlparser.cpp:401-436 | the longest name at the front, or null where none starts |
| `XmlRead.ReadsName` | tinyxml/tinyxmlparser.cpp:401-436 | a valid name in front of anything that cannot continue it is read in full |
| `XmlRead.NextChar` | tinyxml/tinyxml.h:327-361 | one character, an entity expanded |
| `XmlRead.ReadText` | tinyxml/tinyxmlparser.cpp:574-637 | both modes, the end marker and its absence |
| `XmlRead.ReadKept` | tinyxml/tinyxmlparser.cpp:584-595 | the loop that keeps white space |
| `XmlRead.ReadCondensed` | tinyxml/tinyxmlparser.cpp:596-633 | the loop that condenses it |
| `XmlRead.KeepEncoded` | tinyxml/tinyxmlparser.cpp:584-595 | an escaped value without hexadecimal references is read back up to its quote |
| `XmlRead.ReadsValue` | tinyxml/tinyxmlparser.cpp:574-637 | the same through ReadText, which stops right after the quote |
| `XmlRead.KeepLength` | tinyxml/tinyxml.cpp:60-82 | a value is read past its quote or never comes back longer, and with a hexadecimal reference in it always shorter |
| `XmlRead.ReferenceIsExpanded` | tinyxml/tinyxml.cpp:60-82 | a value that does not come back |
| `XmlRead.ReadsValueExactly` | tinyxml/tinyxml.cpp:60-82 | for each text that follows, a value comes back if and only if it holds no hexadecimal reference |
| `XmlRead.CondenseEncoded` | tinyxml/tinyxmlparser.cpp:596-633 | escaped text, any white space and a bracket are read as the squeezed text |
| `XmlRead.ReadsText` | tinyxml/tinyxmlparser.cpp:574-637 | text between tags comes back condensed, whatever white space follows |
| `XmlRead.CondensedExactly` | tinyxml/tinyxmlparser.cpp:596-633 | condensing as a function on texts changes nothing if and only if the text has no blank but single inner spaces |
| `XmlRead.CondenseLength` | tinyxml/tinyxmlparser.cpp:596-633 | text between tags is read past its bracket or never comes back longer, and with a hexadecimal reference in it always shorter |
| `XmlRead.ReadsTextExactly` | tinyxml/tinyxmlparser.cpp:574-637 | for each white space and each text that follows, text between tags comes back if and only if it holds no hexadecimal reference and is condensed |
| `XmlRead.TextReferenceIsExpanded` | tinyxml/tinyxml.cpp:60-82 | a condensed text that does not come back |
| `XmlPrint.PrintAttribute` | tinyxml/tinyxml.cpp:1210-1233 | name, equals sign and the escaped value in the quotes it does not hold |
| `XmlPrint.PrintStartTag` | tinyxml/tinyxml.cpp:1769-1776 | an element's name and its attributes in order |
| `XmlPrint.PrintLeaf` | tinyxml/tinyxml.cpp:1829-1885 | text, CDATA, comments, declarations and unknown tags as the grammar writes them |
| `XmlPrint.Printer.constructor` | tinyxml/tinyxml.h:1740-1741 | an empty buffer, no depth, the default layout |
| `XmlPrint.Printer.SetLayout` | tinyxml/tinyxml.h:1757-1773 | the layout and nothing else changes |
| `XmlPrint.Printer.DoIndent` | tinyxml/tinyxml.h:1785-1788 | one indent for each level |
| `XmlPrint.Printer.EnterElement` | tinyxml/tinyxml.cpp:1766-1800 | what is printed on entering an element, one level deeper, and whether a single text follows on the line; `XmlLayout` gives the whole rendering for each kind of element |
| `XmlPrint.Printer.ExitElement` | tinyxml/tinyxml.cpp:1803-1827 | what is printed on leaving it, one level up |
| `XmlPrint.Printer.VisitLeaf` | tinyxml/tinyxml.cpp:1829-1885 | what is printed for anything else, with or without a line of its own |
| `XmlPrint.Printer.Accept` | tinyxml/tinyxml.cpp:875-887 | the visits of a whole subtree print its rendering, which `XmlLayout` gives in closed form, and restore the printer's state |
| `XmlPrint.Printer.AcceptAll` | tinyxml/tinyxml.cpp:875-887 | the same for a list of nodes |
| `XmlPrint.VisitsRender` | tinyxml/tinyxml.cpp:1766-1827 | entering, the inside and leaving together are the rendering of an element |
| `XmlParser.StringEqual` | tinyxml/tinyxmlparser.cpp:534-569 | whether the text starts with the tag, with or without regard to case |
| `XmlParser.IdentifyTag` | tinyxml/tinyxmlparser.cpp:818-899 | the kind of node at a bracket |
| `XmlParser.ReadRaw` | tinyxml/tinyxmlparser.cpp:1378-1384 | the characters before the first end marker, unchanged |
| `XmlParser.ReadUnquoted` | tinyxml/tinyxmlparser.cpp:1441-1461 | a value without quotes goes up to white space, a slash or a closing bracket, and a quote in it is an error (`XmlSurface.BareValue`, `XmlSurface.BareQuote`) |
| `XmlParser.FindAttribute` | tinyxml/tinyxml.cpp:1549-1557 | whether an attribute of that name is there |
| `XmlParser.Blank` | tinyxml/tinyxmlparser.cpp:1631-1637 | whether a text is white space only |
| `XmlParser.XmlDocument.SetError` | tinyxml/tinyxmlparser.cpp:798-815 | the first error stays |
| `XmlParser.XmlDocument.ParseAttribute` | tinyxml/tinyxmlparser.cpp:1392-1463 | name, value, rest of the text and error of the grammar's attribute, which is what was written (`XmlSurface.WrittenAttribute`) or an error (`XmlSurface.NoEquals`, `XmlSurface.NoValue`, `XmlSurface.NoName`, `XmlSurface.QuoteInside`) |
| `XmlParser.XmlDocument.ParseComment` | tinyxml/tinyxmlparser.cpp:1337-1389 | the comment, the rest of the text and the error |
| `XmlParser.XmlDocument.ParseUnknown` | tinyxml/tinyxmlparser.cpp:1275-1307 | the unknown tag, the rest of the text and the error |
| `XmlParser.XmlDocument.ParseCData` | tinyxml/tinyxmlparser.cpp:1508-1535 | the CDATA text, the rest of the text and the error |
| `XmlParser.XmlDocument.ParseText` | tinyxml/tinyxmlparser.cpp:1536-1545 | the condensed text; the bracket behind it stays |
| `XmlParser.XmlDocument.ParsePart` | tinyxml/tinyxmlparser.cpp:1602-1626 | one turn of the loop makes progress and leaves the result of the declaration as it was |
| `XmlParser.XmlDocument.ParseDeclaration` | tinyxml/tinyxmlparser.cpp:1572-1629 | version, encoding and standalone in any order, the rest of the text and the error |
| `XmlParser.XmlDocument.ParseNode` | tinyxml/tinyxmlparser.cpp:818-899 | the node of whatever kind starts at a bracket |
| `XmlParser.XmlDocument.ParseElement` | tinyxml/tinyxmlparser.cpp:1043-1176 | the element with everything in it, the rest of the text and the first error |
| `XmlParser.XmlDocument.ParseAttributes` | tinyxml/tinyxmlparser.cpp:1081-1175 | the attributes of a tag, a repeated name being an error |
| `XmlParser.XmlDocument.ParseTagEnd` | tinyxml/tinyxmlparser.cpp:1087-1138 | the end of the text, an empty tag, or content and an end tag |
| `XmlParser.XmlDocument.ParseEndTag` | tinyxml/tinyxmlparser.cpp:1117-1136 | the end tag of that name, or the error |
| `XmlParser.XmlDocument.ReadValue` | tinyxml/tinyxmlparser.cpp:1179-1247 | texts and nodes in order up to an end tag; blank texts are dropped |
| `XmlParser.XmlDocument.Parse` | tinyxml/tinyxmlparser.cpp:704-796 | children, position and error of the grammar's document for every input; nodes of an earlier parse are kept, and an empty text is an error behind them too |
| `XmlParser.PrintThenParse` | tinyxml/tinyxmlparser.cpp:704-796 | printing with the printer object and parsing with the document object gives the nodes back without an error |
| `XmlRoundTrip.ReadsAttributes` | tinyxml/tinyxmlparser.cpp:1139-1173 | printed attributes are read back in order, up to whatever closes the tag |
| `XmlRoundTrip.ReadsRaw` | tinyxml/tinyxmlparser.cpp:1378-1384 | a value that does not hold the end marker is read back in full |
| `XmlRoundTrip.ReadsComment` | tinyxml/tinyxmlparser.cpp:1337-1389 | a printed comment is read back |
| `XmlRoundTrip.ReadsCData` | tinyxml/tinyxmlparser.cpp:1508-1535 | a printed CDATA text is read back |
| `XmlRoundTrip.ReadsUnknown` | tinyxml/tinyxmlparser.cpp:1275-1307 | a printed unknown tag is read back |
| `XmlRoundTrip.ReadsDeclaration` | tinyxml/tinyxmlparser.cpp:1572-1629 | a printed declaration is read back, whichever parts are empty |
| `XmlRoundTrip.ReadsElement` | tinyxml/tinyxmlparser.cpp:1043-1176 | a printed element of any depth is read back in full, whatever follows |
| `XmlRoundTrip.ReadsAll` | tinyxml/tinyxmlparser.cpp:1179-1247 | printed children are read back in order up to the end tag |
| `XmlRoundTrip.ReadsNodes` | tinyxml/tinyxmlparser.cpp:704-796 | printed nodes at the top are read back behind those already there |
| `XmlRoundTrip.RoundTrip` | tinyxml/tinyxmlparser.cpp:704-796 | printing any document of printable nodes in any layout of white space and parsing it gives the document and no error |
| `XmlChars.DecimalReference` | tinyxml/tinyxmlparser.cpp:478-511 | any decimal digits between &# and a semicolon are read as the low byte of the number they write, and the cursor goes behind the semicolon |
| `XmlChars.HexadecimalReference` | tinyxml/tinyxmlparser.cpp:451-511 | so are hexadecimal digits of either case behind &#x |
| `XmlChars.NotDecimal` | tinyxml/tinyxmlparser.cpp:491-499 | any other character among the digits makes the reference fail, and reading with it |
| `XmlChars.NotHexadecimal` | tinyxml/tinyxmlparser.cpp:464-476 | the same for a hexadecimal reference |
| `XmlChars.NoSemicolon` | tinyxml/tinyxmlparser.cpp:456-486 | and for a reference without a semicolon |
| `XmlChars.UnknownEntity` | tinyxml/tinyxmlparser.cpp:514-530 | an ampersand that no known name follows is dropped and what follows it is text |
| `XmlChars.EncodePlain` | tinyxml/tinyxml.cpp:124-130 | characters from the space on that have no name are written as they are |
| `XmlChars.EncodeNamed` | tinyxml/tinyxml.cpp:83-107 | the five characters with names are written by name, an ampersand unless it starts a hexadecimal reference |
| `XmlChars.EncodeControl` | tinyxml/tinyxml.cpp:108-123 | control characters are written as references of two upper-case digits |
| `XmlChars.EncodeReference` | tinyxml/tinyxml.cpp:60-82 | a hexadecimal reference with its semicolon is copied, whatever is in it |
| `XmlChars.EncodeOpenReference` | tinyxml/tinyxml.cpp:68-81 | without a semicolon everything is copied but the last character, which is written like any other |
| `XmlChars.SkipsSpaces` | tinyxml/tinyxmlparser.cpp:314-362 | exactly the six white space characters are skipped, and white space to the end leaves the cursor at the end |
| `XmlChars.ReadsSigns` | tinyxml/tinyxmlparser.cpp:401-436 | a name is read to its end, and none is read where a digit, hyphen, dot or colon stands |
| `XmlSurface.PairAt` | tinyxml/tinyxmlparser.cpp:1403-1423 | white space around the equals sign of an attribute means nothing |
| `XmlSurface.BareValue` | tinyxml/tinyxmlparser.cpp:1441-1461 | a value without quotes goes up to white space, a slash, a closing bracket or the end, and not into them |
| `XmlSurface.BareQuote` | tinyxml/tinyxmlparser.cpp:1451-1457 | a quote in it is an error that ends the parse |
| `XmlSurface.BareAttribute` | tinyxml/tinyxmlparser.cpp:1392-1463 | an attribute without quotes is read, at the end of the text too |
| `XmlSurface.QuotedValue` | tinyxml/tinyxmlparser.cpp:1429-1440 | between quotes everything but the quote and ampersands is taken as it is |
| `XmlSurface.WrittenAttribute` | tinyxml/tinyxmlparser.cpp:1392-1463 | an attribute is read whichever white space, quotes or none it is written with |
| `XmlSurface.WrittenAttributes` | tinyxml/tinyxmlparser.cpp:1139-1173 | so are all the attributes of a tag, in order |
| `XmlSurface.RepeatedName` | tinyxml/tinyxmlparser.cpp:1159-1170 | a name that was there already ends the parse with an error, and the attributes before it are kept |
| `XmlSurface.QuoteInside` | tinyxml/tinyxmlparser.cpp:1441-1461 | an attribute with a quote in an unquoted value is an error |
| `XmlSurface.NoEquals` | tinyxml/tinyxmlparser.cpp:1410-1415 | so is one without an equals sign |
| `XmlSurface.NoValue` | tinyxml/tinyxmlparser.cpp:1417-1423 | and one without a value |
| `XmlSurface.NoName` | tinyxml/tinyxmlparser.cpp:1404-1409 | and something that is no name |
| `XmlSurface.BrokenInTag` | tinyxml/tinyxmlparser.cpp:1139-1157 | each of these ends the parse of the tag, and the attributes before it are kept |
| `XmlSurface.AttributeCutOff` | tinyxml/tinyxmlparser.cpp:1150-1157 | so does an attribute that the text ends behind |
| `XmlSurface.EmptyTag` | tinyxml/tinyxmlparser.cpp:1092-1102 | a slash and a closing bracket end an element without content |
| `XmlSurface.BrokenEmptyTag` | tinyxml/tinyxmlparser.cpp:1092-1100 | a slash with anything else behind it is an error |
| `XmlSurface.TagCutOff` | tinyxml/tinyxmlparser.cpp:1084-1091 | and so is the end of the text inside a tag |
| `XmlSurface.WrittenElement` | tinyxml/tinyxmlparser.cpp:1043-1102 | an element without content is read with its attributes, however they are written |
| `XmlSurface.NameCutOff` | tinyxml/tinyxmlparser.cpp:1071-1076 | the end of the text inside the name of an element is an error |
| `XmlSurface.EndTagRead` | tinyxml/tinyxmlparser.cpp:1117-1129 | an end tag is read with white space before its bracket |
| `XmlSurface.EndTagBroken` | tinyxml/tinyxmlparser.cpp:1122-1132 | anything else there, a longer name with it, is an error |
| `XmlSurface.EndTagOther` | tinyxml/tinyxmlparser.cpp:1133-1137 | so is an end tag of another name, or none |
| `XmlNodes.ReadsWords` | tinyxml/tinyxmlparser.cpp:596-633 | text is its words with one space between them and none at its ends, whatever white space is written |
| `XmlNodes.CommentCutOff` | tinyxml/tinyxmlparser.cpp:1337-1389 | a comment without its end is the rest of the text, and no error |
| `XmlNodes.CDataCutOff` | tinyxml/tinyxmlparser.cpp:1508-1535 | so is CDATA, behind which there is nothing |
| `XmlNodes.OtherTag` | tinyxml/tinyxmlparser.cpp:847-891 | a tag that starts like no other is taken as it is |
| `XmlNodes.ExclamationTag` | tinyxml/tinyxmlparser.cpp:847-876 | so is one that starts with an exclamation mark and is no comment and no CDATA |
| `XmlNodes.QuestionTag` | tinyxml/tinyxmlparser.cpp:847-891 | and one with a question mark and no xml behind it |
| `XmlNodes.OpenTag` | tinyxml/tinyxmlparser.cpp:1103-1132 | a start tag, however it is written, is followed by content and the end tag of its name, and the first error counts |
| `XmlNodes.WrongEndTag` | tinyxml/tinyxmlparser.cpp:1122-1137 | the end tag of another element is an error |
| `XmlNodes.ContentMissing` | tinyxml/tinyxmlparser.cpp:1103-1115 | nothing, or nothing but white space, behind a start tag is an error, and not the same one |
| `XmlNodes.ChildCutOff` | tinyxml/tinyxmlparser.cpp:1217-1246 | a child that breaks off without an error of its own makes one for the element, which keeps it |
| `XmlNodes.TextCutOff` | tinyxml/tinyxmlparser.cpp:1189-1214 | text that no bracket follows is kept, with that error |
| `XmlNodes.BlankText` | tinyxml/tinyxmlparser.cpp:1210-1213 | a text that comes out blank is dropped |
| `XmlNodes.DeclarationHead` | tinyxml/tinyxmlparser.cpp:1574-1592 | a declaration starts with <?xml in any case |
| `XmlNodes.VersionPart` | tinyxml/tinyxmlparser.cpp:1602-1608 | the version, its name in any case, its value quoted or not, replaces an earlier one |
| `XmlNodes.EncodingPart` | tinyxml/tinyxmlparser.cpp:1609-1614 | so does the encoding |
| `XmlNodes.StandalonePart` | tinyxml/tinyxmlparser.cpp:1615-1620 | and the standalone part |
| `XmlNodes.OtherWord` | tinyxml/tinyxmlparser.cpp:1621-1626 | a word that means nothing is skipped, and no more than that |
| `XmlNodes.DeclarationEnds` | tinyxml/tinyxmlparser.cpp:1594-1600 | a closing bracket ends a declaration and the end of the text breaks it off; neither is an error |
| `XmlNodes.TextAtTop` | tinyxml/tinyxmlparser.cpp:754-796 | text where a tag should be ends the document: an error without a node, left alone behind one |
| `XmlNodes.BlankAtTop` | tinyxml/tinyxmlparser.cpp:704-796 | so does white space to the end; a text without a character is an error even behind nodes |
| `XmlNodes.BrokenAtTop` | tinyxml/tinyxmlparser.cpp:754-766 | a node that breaks off ends the document, which keeps it and its error |
| `XmlNodes.NodeAtTop` | tinyxml/tinyxmlparser.cpp:754-796 | after a node that does not the document goes on, and the first error counts |
| `XmlLayout.PadIs` | tinyxml/tinyxml.h:1785-1788 | the padding is the indent, once for each level |
| `XmlLayout.EmptyElement` | tinyxml/tinyxml.cpp:1766-1782 | an element without children is an empty tag on a line of its own |
| `XmlLayout.TextElement` | tinyxml/tinyxml.cpp:1783-1800 | an element whose only child is a text is on one line, tags and all |
| `XmlLayout.FullElement` | tinyxml/tinyxml.cpp:1766-1827 | any other element has its children on lines of their own, one level deeper, between the lines of its tags |
| `XmlLayout.InOrder` | tinyxml/tinyxml.cpp:875-887 | children are printed in order, each as it is printed alone |
| `XmlLayout.Leaf` | tinyxml/tinyxml.cpp:1829-1885 | texts, CDATA, comments and unknown tags, each on its line |
| `XmlLayout.DeclarationLine` | tinyxml/tinyxml.cpp:1857-1863 | the line of a declaration has its three parts in this order |
| `XmlLayout.DeclarationPart` | tinyxml/tinyxml.cpp:1423-1434 | a part that is empty is left out |
| `XmlLayout.Quotes` | tinyxml/tinyxml.cpp:1210-1233 | a value goes between single quotes if and only if it holds a double quote |
| `XmlLayout.AttributeList` | tinyxml/tinyxml.cpp:1769-1776 | attributes come in order, each behind a space |
| `XmlLinks.Node.LinkEndChild` | tinyxml/tinyxml.cpp:186-211 | the node becomes the last child, or nothing changes for a document node; the links stay well-formed |
| `XmlLinks.Node.InsertBeforeChild` | tinyxml/tinyxml.cpp:230-260 | the node goes right before the child, or nothing changes when that is no child or the node a document |
| `XmlLinks.Node.InsertAfterChild` | tinyxml/tinyxml.cpp:263-293 | the node goes right after the child, under the same conditions |
| `XmlLinks.Node.ReplaceChild` | tinyxml/tinyxml.cpp:296-332 | the node takes the child's place, under the same conditions |
| `XmlLinks.Node.RemoveChild` | tinyxml/tinyxml.cpp:335-359 | the child is taken out and its neighbours are joined; the answer says whether it was a child |
| `XmlLinks.Node.Child` | tinyxml/tinyxml.cpp:385-396 | following `next` finds the child at each position, and null past the end |
| `XmlLinks.Node.Forward` | tinyxml/tinyxml.cpp:385-396 | following `next` from the first child visits all children in order |
| `XmlLinks.Node.Backward` | tinyxml/tinyxml.cpp:373-383 | following `prev` from the last child visits them in reverse |
| `XmlLinks.Apply` | tinyxml/tinyxml.cpp:186-359 | one edit at any position does to the linked list what it does to a sequence |
| `XmlLinks.Run` | tinyxml/tinyxml.cpp:186-359 | every run of edits leaves a well-formed list of what the same edits make of a sequence |
| `XmlLinks.StaysCoherent` | tinyxml/tinyxml.cpp:186-359 | a change of one child list from its own nodes and loose ones keeps every list of the tree well-formed |
| `XmlLinks.LinkInTree` | tinyxml/tinyxml.cpp:186-211 | linking puts the node last in that list, keeps the whole tree coherent and every other list as it was |
| `XmlLinks.InsertBeforeInTree` | tinyxml/tinyxml.cpp:230-260 | inserting puts the node right before the child in that list, and keeps the tree and the other lists |
| `XmlLinks.InsertAfterInTree` | tinyxml/tinyxml.cpp:263-293 | inserting puts the node right after the child in that list, and keeps the tree and the other lists |
| `XmlLinks.ReplaceInTree` | tinyxml/tinyxml.cpp:296-332 | replacing puts the node in the child's place in that list, and keeps the tree and the other lists |
| `XmlLinks.RemoveInTree` | tinyxml/tinyxml.cpp:335-359 | removing takes the child out of that list, and keeps the tree and the other lists |
| `GumboTree.AppendNode` | html_parser/parser.cpp:745-760 | one more last child, and parents and indices of the whole tree agree with the children |
| `GumboTree.InsertNode` | html_parser/parser.cpp:764-781 | the node at that position, later siblings renumbered, everything else as it was |
| `GumboTree.Renumber` | html_parser/parser.cpp:776-780 | the siblings from a position on get their positions as indices |
| `GumboTree.IndexOf` | html_parser/vector.cpp:84-91 | the first position of an element, or -1 |
| `GumboTree.TakeOut` | html_parser/parser.cpp:1769-1779 | the node leaves its parent's children, later siblings are renumbered |
| `GumboTree.RemoveFromParent` | html_parser/parser.cpp:1760-1780 | the same, or nothing for a node without a parent |
| `GumboTree.SwapChildren` | html_parser/parser.cpp:1951-1964 | all children change parents in order |
| `GumboTree.Rebuilt` | html_parser/parser.cpp:745-781 | a change of one children vector that sets parents and indices keeps the tree coherent |
| `GumboStack.HasElementInScope` | html_parser/parser.cpp:1301-1351 | whether an expected element is met before one that ends the scope, from the top down, for either reading of the list |
| `GumboStack.InScopeIsOpen` | html_parser/parser.cpp:1364-1372 | an element in scope is open and, unless it is html, above the bottom |
| `GumboStack.ListItemIs` | html_parser/parser.cpp:1614-1634 | the element found is at a position if and only if it is a list item and nothing above it is one or is a special element other than address, div and p |
| `GumboStack.ModeIs` | html_parser/parser.cpp:570-619 | the mode is that of the topmost element that decides one, the bottom element being asked as the last |
| `GumboParser.Parser.constructor` | html_parser/parser.cpp:2081-2089 | the state once the root has been inserted: a coherent document, an html element without children open under it, nothing on the list, the mode before head |
| `GumboParser.Parser.FindTable` | html_parser/parser.cpp:792-795 | the topmost table from the third element up |
| `GumboParser.Parser.FosterLast` | html_parser/parser.cpp:816-819 | without a place before a table the node is appended and, if an element, pushed |
| `GumboParser.Parser.FosterParent` | html_parser/parser.cpp:784-820 | the node goes in front of the nearest table, or last under the element below it or html, and the tree stays coherent |
| `GumboLaws.FosteredInFront` | html_parser/parser.cpp:784-813 | a fostered node stands right in front of the nearest table, among the children of its parent, and no other children change |
| `GumboLaws.FosteredAtEnd` | html_parser/parser.cpp:789-820 | without a table it is the last child of html, and with a table that is not under an element the last child of what is open below it |
| `GumboParser.Parser.InsertHere` | html_parser/parser.cpp:998-1004 | the node becomes the last child of the current node and is pushed |
| `GumboParser.Parser.InsertFostered` | html_parser/parser.cpp:990-996 | the node goes to its foster place and is pushed, twice without a place before a table |
| `GumboParser.Parser.InsertElement` | html_parser/parser.cpp:975-1005 | both cases, with the exact tree and stack; an insertion is fostered if and only if the flag is on and the current node is a table, tbody, tfoot, thead or tr |
| `GumboParser.Parser.OpenFostered` | html_parser/parser.cpp:1009-1017 | a new element inserted where insertions are fostered: its place, the stack and the whole tree |
| `GumboParser.Parser.OpenHere` | html_parser/parser.cpp:1009-1017 | a new element inserted elsewhere: last child of the current node, and pushed |
| `GumboParser.Parser.Pop` | html_parser/parser.cpp:866-893 | the top leaves the stack; null from an empty stack |
| `GumboParser.Parser.ResetMode` | html_parser/parser.cpp:606-619 | the mode of the topmost element that decides one |
| `GumboParser.Parser.GenerateImpliedEndTags` | html_parser/parser.cpp:1470-1477 | exactly the run of elements with implied end tags on top is popped, up to the exception |
| `GumboParser.Parser.PopThrough` | html_parser/parser.cpp:1488-1491 | pops up to and with the topmost element of the tag |
| `GumboParser.Parser.CloseTable` | html_parser/parser.cpp:1483-1494 | with a table in table scope, closes the topmost one and resets the mode; otherwise changes nothing |
| `GumboParser.Parser.CloseThrough` | html_parser/parser.cpp:1585-1599 | closes the topmost element of the tag and answers whether only implied end tags were above it |
| `GumboParser.Parser.CloseTableCell` | html_parser/parser.cpp:1498-1514 | closes the cell, clears the list to its last marker, and answers the same |
| `GumboParser.Parser.CloseCurrentCell` | html_parser/parser.cpp:1518-1526 | closes the td in table scope or else the th, and answers whether only implied end tags were above it |
| `GumboParser.Parser.CloseCurrentSelect` | html_parser/parser.cpp:1532-1538 | closes the topmost select and resets the mode |
| `GumboParser.Parser.ImplicitlyCloseTags` | html_parser/parser.cpp:1585-1599 | closes the topmost element of the tag and answers whether only implied end tags were above it |
| `GumboParser.Parser.MaybeCloseP` | html_parser/parser.cpp:1605-1610 | closes the topmost p if one is in button scope and answers whether only implied end tags were above it; otherwise changes nothing and answers true |
| `GumboParser.Parser.MaybeCloseListItem` | html_parser/parser.cpp:1614-1634 | closes the nearest list item unless a special element hides it |
| `GumboLaws.ScopeStep` | html_parser/parser.cpp:1301-1361 | an element is in a scope if it is the topmost one, or the topmost does not end the scope and it is in scope without it |
| `GumboLaws.ScopeLaw` | html_parser/parser.cpp:1364-1372 | the seventeen elements that hide what is below them from the scope, and no others |
| `GumboLaws.ButtonScopeLaw` | html_parser/parser.cpp:1441-1449 | the eighteen for button scope |
| `GumboLaws.TableScopeLaw` | html_parser/parser.cpp:1452-1457 | html and table for table scope |
| `GumboLaws.SelectScopeLaw` | html_parser/parser.cpp:1459-1464 | everything but options and option groups for select scope |
| `GumboLaws.ImpliedEndTags` | html_parser/parser.cpp:1470-1477 | the eight elements with implied end tags |
| `GumboLaws.FosteringTags` | html_parser/parser.cpp:990-993 | the five elements below which insertions are fostered |
| `GumboLaws.FormattingTags` | html_parser/parser.cpp:2606-2655 | the fourteen elements that are put on the list |
| `GumboLaws.SpecialTags` | html_parser/parser.cpp:1540-1579 | the special elements of the three namespaces |
| `GumboLaws.ModeLaw` | html_parser/parser.cpp:570-619 | the mode of a stack with one more element: the one that element decides, or the mode of the rest |
| `GumboLaws.ListItemLaw` | html_parser/parser.cpp:1614-1634 | the list item to close with one more element on the stack: that element, none if it is special and not an address, div or p, or the one of the rest |
| `GumboLaws.KeyLaw` | html_parser/parser.cpp:1109-1131 | two entries agree if and only if tag and namespace are the same and each attribute of either is among the other's, names in any case, values exactly, in any order |
| `GumboLaws.CountLaw` | html_parser/parser.cpp:1109-1131 | what is counted is the number of positions with an entry that agrees |
| `GumboLaws.TailLaw` | html_parser/parser.cpp:1109-1131 | and the positions are those behind the last marker |
| `GumboLaws.RoundMark` | html_parser/parser.cpp:1969-1984 | after a round the clone of the formatting element is on the list in the place of that, or, when other clones were made, right behind the first of them |
| `GumboActive.AllAttributesMatch` | html_parser/parser.cpp:427-439 | the same number, and each of the first has a match among the second |
| `GumboActive.MatchIsSamePairs` | html_parser/parser.cpp:427-439 | with unique names matching is equality of the sets of pairs |
| `GumboActive.MatchNeedsUnique` | html_parser/parser.cpp:427-439 | without unique names matching is not symmetric |
| `GumboActive.CountAgreeing` | html_parser/parser.cpp:1109-1131 | how many entries since the last marker agree, and the earliest of them |
| `GumboActive.AddEntry` | html_parser/parser.cpp:1134-1157 | the entry is appended, the earliest of three that agree leaves, and the bound of three is kept |
| `GumboActive.ArkSegments` | html_parser/parser.cpp:1149-1156 | no stretch of a bounded list without a marker holds four entries that agree |
| `GumboActive.ArkWithout` | html_parser/parser.cpp:1149-1153 | removing an entry since the last marker keeps the bound |
| `GumboActive.ArkAppend` | html_parser/parser.cpp:1156 | appending a marker or an entry with fewer than three that agree keeps the bound |
| `GumboActive.ArkSameKinds` | html_parser/parser.cpp:1237-1251 | so does replacing entries by entries of the same kind |
| `GumboActive.ReconstructedLists` | html_parser/parser.cpp:1237-1251 | reconstruction keeps the front of the list, replaces the rest by the clones and extends the stack by them |
| `GumboActive.ReconstructedKids` | html_parser/parser.cpp:1237-1251 | each clone is the only child of the one before it, the first the last child of the current node, and no other children change |
| `GumboActive.NewClonesAre` | html_parser/parser.cpp:1172-1200 | the clones are new, different from each other and of the kind of their entries |
| `GumboParser.Parser.AddFormatting` | html_parser/parser.cpp:1134-1157 | AddEntry on the parser's list |
| `GumboParser.Parser.ClearToMarker` | html_parser/parser.cpp:1254-1264 | everything from the last marker on leaves the list |
| `GumboParser.Parser.IsOpen` | html_parser/parser.cpp:1159-1167 | whether the node is on the stack |
| `GumboParser.Parser.CloneNode` | html_parser/parser.cpp:1172-1200 | a new element with the same tag, namespace and attributes, no children and no parent |
| `GumboParser.Parser.FirstToReconstruct` | html_parser/parser.cpp:1206-1233 | the entry behind the last that is a marker or open |
| `GumboParser.Parser.ReconstructHere` | html_parser/parser.cpp:1237-1251 | one turn: the clone is inserted, pushed and put on the list |
| `GumboParser.Parser.ReconstructFrom` | html_parser/parser.cpp:1237-1251 | the whole loop where insertions are not fostered |
| `GumboParser.Parser.ReconstructFostered` | html_parser/parser.cpp:1237-1251 | one turn where they are: place, stack and list, and that the next turn is not fostered |
| `GumboParser.Parser.ReconstructWithFoster` | html_parser/parser.cpp:1237-1251 | the whole loop where they are: only the first clone is fostered, the others follow it |
| `GumboParser.Parser.Rebuild` | html_parser/parser.cpp:1237-1251 | both cases |
| `GumboParser.Parser.Reconstruct` | html_parser/parser.cpp:1206-1252 | exactly the entries behind the last marker or open one are cloned; list, stack and tree in both cases; the bound of three is kept |
| `GumboAdoption.MarkStep` | html_parser/parser.cpp:1913-1917 | the bookmark moves behind the first clone only |
| `GumboAdoption.InnerKeeps` | html_parser/parser.cpp:1884-1926 | the inner loop leaves the formatting element, the block and the common ancestor open, and the formatting element on the list |
| `GumboAgency.NextIndex` | html_parser/parser.cpp:1886-1897 | the search finds the element below the one visited last, even when that one has left the stack |
| `GumboAgency.VisitDrop` | html_parser/parser.cpp:1898-1903 | an element that is not on the list leaves the stack and nothing else changes |
| `GumboAgency.CloneInPlace` | html_parser/parser.cpp:1907-1912 | a clone takes the element's place on the stack and on the list |
| `GumboAgency.CloneStep` | html_parser/parser.cpp:1907-1925 | the clone also becomes the parent of the last node |
| `GumboAgency.VisitClone` | html_parser/parser.cpp:1907-1925 | the visit of an element on the list is the next step of the loop's description |
| `GumboAgency.Step` | html_parser/parser.cpp:1884-1926 | one turn, ending at the formatting element |
| `GumboAgency.InnerLoop` | html_parser/parser.cpp:1884-1926 | at most three visits, from the block downward, stopping early only at the formatting element; stack, list, tree and bookmark are those of the description |
| `GumboAgency.MoveToAncestor` | html_parser/parser.cpp:1927-1942 | the last node becomes the last child of the common ancestor |
| `GumboAgency.MoveToFosterParent` | html_parser/parser.cpp:1930-1937 | the last node goes to its foster place, and is pushed exactly without a table to go in front of |
| `GumboAgency.NewFormatting` | html_parser/parser.cpp:1944-1967 | a clone of the formatting element takes over the block's children and becomes its only child |
| `GumboAgency.MoveToBookmark` | html_parser/parser.cpp:1969-1984 | the list without the formatting element and with the clone at the bookmark |
| `GumboAgency.FinishList` | html_parser/parser.cpp:1969-1984 | the same on the parser's list |
| `GumboAgency.MoveAbove` | html_parser/parser.cpp:1986-1994 | the stack without the formatting element and with the clone right above the block |
| `GumboAgency.FinishOpen` | html_parser/parser.cpp:1986-1994 | the same on the parser's stack |
| `GumboAgency.Complete` | html_parser/parser.cpp:1944-1994 | steps 11 to 15 together |
| `GumboAgency.StartRound` | html_parser/parser.cpp:1864-1926 | steps 7 to 9: the bookmark starts at the formatting element |
| `GumboAgency.EndRound` | html_parser/parser.cpp:1927-1994 | steps 10 to 15 without a table |
| `GumboAgency.RunRound` | html_parser/parser.cpp:1864-1994 | a round does to stack, list and tree exactly what the function `Round` says |
| `GumboAgency.FosterRound` | html_parser/parser.cpp:1864-1994 | a round in a table makes of list, stack and tree exactly what `FosterState` says, pushes the last node if and only if the stack and tree before satisfy `Pushes`, and leaves no element open twice if and only if it does not |
| `GumboAgency.RoundOnTree` | html_parser/parser.cpp:1864-1994 | run on a tree whose open elements lie on its rightmost path: the state of `Round`, leaves in the same order, old nodes and clones exactly, and the path again if and only if at most three elements are between |
| `GumboRound.RoundOpen` | html_parser/parser.cpp:1864-1994 | the stack after a round in closed form: below the formatting element, unvisited elements, clones, the block, the new clone, the rest |
| `GumboRound.RoundDistinct` | html_parser/parser.cpp:1864-1994 | it holds no element twice |
| `GumboRound.FosterOpen` | html_parser/parser.cpp:1930-1994 | the stack after a round in a table is the same with the pushed node on top |
| `GumboRound.ListAfterIs` | html_parser/parser.cpp:1907-1912 | the visits replace entries in place, all at once |
| `GumboRound.RoundList` | html_parser/parser.cpp:1864-1984 | the list after a round in closed form |
| `GumboRound.RoundListDistinct` | html_parser/parser.cpp:1864-1984 | it holds nothing but markers twice |
| `GumboLeaves.LeavesCutOff` | html_parser/parser.cpp:1760-1780 | cutting a subtree off the rightmost path cuts off the last leaves |
| `GumboLeaves.LeavesGraft` | html_parser/parser.cpp:745-760 | appending a subtree to a node of that path appends its leaves |
| `GumboLeaves.PathGraft` | html_parser/parser.cpp:745-760 | the rightmost path then goes through the new subtree |
| `GumboOrder.RoundKids` | html_parser/parser.cpp:1927-1967 | the children of every node after a round |
| `GumboOrder.RoundChain` | html_parser/parser.cpp:1918-1925 | the clones form a chain down to the block |
| `GumboOrder.RoundLeaves` | html_parser/parser.cpp:1864-1994 | the leaves stay in their order |
| `GumboOrder.RoundNodes` | html_parser/parser.cpp:1864-1994 | no node is lost and only clones are new |
| `GumboOrder.RoundShape` | html_parser/parser.cpp:1864-1994 | the children vectors after a round form the tree that the round makes of the tree before |
| `GumboOrder.RoundKeepsOrder` | html_parser/parser.cpp:1864-1994 | all of this for every state, formatting element and block |
| `GumboOrder.RoundOnPath` | html_parser/parser.cpp:1884-1926 | the open elements lie on the rightmost path again if and only if at most three are between the formatting element and the block |
| `GumboReady.RoundReady` | html_parser/parser.cpp:1864-1994 | a round leaves a state from which the next round can run: no element open twice, each above html under an element |
| `GumboReady.PutStands` | html_parser/parser.cpp:1918-1967 | wherever above B the last node is put, everything the round leaves on the stack above html is under an element |
| `GumboReady.PutReady` | html_parser/parser.cpp:1927-1967 | so the whole stack is |
| `GumboFoster.BlockParent` | html_parser/parser.cpp:1918-1925 | after the inner loop the block is under an element if and only if a clone was made |
| `GumboFoster.TableStays` | html_parser/parser.cpp:792-795 | the table that is found after the inner loop is the topmost of those before it that were not visited |
| `GumboFoster.PushesExactly` | html_parser/parser.cpp:784-820 | the last node of a round in a table is pushed if and only if the state before says so |
| `GumboFoster.PushesWhenReady` | html_parser/parser.cpp:784-820 | from a ready state that is: no table is open from the third position on, or the block is the topmost and no visited element is listed |
| `GumboFoster.TableBlockNeedsTwin` | html_parser/parser.cpp:1826-1830 | with the tag in scope a table above the formatting element needs another element of that tag above it |
| `GumboFoster.FosterReady` | html_parser/parser.cpp:1864-1994 | a round in a table leaves a state from which the next round can run if and only if the last node was not pushed |
| `GumboOutcome.OneOutcome` | html_parser/parser.cpp:1790-1859 | two outcomes of a round from one state are the same, with the same elements |
| `GumboOutcome.FollowsReady` | html_parser/parser.cpp:1788-1996 | every outcome keeps the state ready but a fostered round that pushes |
| `GumboOutcome.FirstRound` | html_parser/parser.cpp:1790-1813 | in every run the first round ends for want of an entry if and only if every entry with the tag has a marker behind it, and then nothing changes |
| `GumboAgency.FindEntry` | html_parser/parser.cpp:1790-1813 | the last entry with the tag since the last marker, and none if and only if every entry with the tag has a marker behind it |
| `GumboAgency.FindBlock` | html_parser/parser.cpp:1838-1849 | the lowest special element above the formatting element, or that there is none |
| `GumboAgency.RemoveEntry` | html_parser/vector.cpp:105-112 | the first occurrence leaves the list |
| `GumboAgency.CloseFormatting` | html_parser/parser.cpp:1850-1859 | without a block everything up to and with the formatting element is popped, and it leaves the list |
| `GumboAgency.CloseOrAdopt` | html_parser/parser.cpp:1838-1994 | steps 5 to 15 extend the run by a state that follows from the one before, in a table or not |
| `GumboAgency.OneRound` | html_parser/parser.cpp:1790-1994 | so does a whole round, with every early return; the answer says whether another follows; a round finds no entry if and only if there is none since the last marker |
| `GumboAgency.AdoptionAgency` | html_parser/parser.cpp:1784-1997 | from every state that a round can run on: rounds follow while they adopt, at most eight, each by one of six outcomes from the state before; with no entry for the tag since the last marker nothing changes; the state is ready again if and only if no round pushed an open node, and the answer says whether all eight adopted |
| `GumboMarkers.ArkMoved` | html_parser/parser.cpp:1969-1984 | moving an entry among those since the last marker, as a clone, keeps the bound of three |
| `GumboMarkers.RoundOrderly` | html_parser/parser.cpp:1864-1994 | a round keeps on the list markers and formatting elements, the bound of three, nothing but markers twice, and the stretches between markers in the order of the stack |
| `GumboMarkers.FollowsKept` | html_parser/parser.cpp:1788-1996 | so does every outcome of a round |
| `GumboMarkers.RunsKept` | html_parser/parser.cpp:1784-1997 | so does every run of the adoption agency |
| `GumboTreeRuns.RunsOnTree` | html_parser/parser.cpp:1784-1997 | a run whose rounds are outside tables and have at most three elements between keeps the leaves in order, loses no node and leaves the open elements on the rightmost path |
| `GumboTreeRuns.InsertOnTree` | html_parser/parser.cpp:998-1004 | inserting a new element keeps the open elements on the rightmost path, adds that node only, and puts it behind all leaves |
| `GumboFosterTree.LeavesBefore` | html_parser/parser.cpp:764-781 | a subtree put right before the last child of a node of the rightmost path has its leaves right before those of that child |
| `GumboFosterTree.FosterShape` | html_parser/parser.cpp:1864-1994 | the children vectors after a round in a table form the tree with the block and its clones in front of the table, for every topmost table below the block |
| `GumboFosterTree.FosterOnTree` | html_parser/parser.cpp:1864-1994 | with the topmost table open below the block such a round loses no node, adds clones only, and moves the block's leaves from the end to right before the table's |
| `GumboFosterTree.PushedOnTree` | html_parser/parser.cpp:784-820 | a round that pushes loses no node, adds clones only, and keeps the leaves in order |
| `GumboCycles.LastIsLost` | html_parser/parser.cpp:784-820 | with the topmost table at the block or above it, no finite tree of the children vectors holds the last node |
| `GumboCycles.TreeExactly` | html_parser/parser.cpp:1864-1994 | after a round in a table some tree holds the last node if and only if it was pushed or the topmost table is below the block |
| `GumboCycles.FosterRoundOnTree` | html_parser/parser.cpp:1864-1994 | the round run on a parser whose open elements lie on the rightmost path: its state, its push, nodes and leaves of the new tree, and when there is one |
| `GumboTables.TabledHasTable` | html_parser/parser.cpp:792-795 | where parts of tables stand in tables a fostered insertion has a table to go in front of |
| `GumboTables.PushesWhenTabled` | html_parser/parser.cpp:784-820 | there a round in a table pushes if and only if the block is the topmost table and no visited element is listed |
| `GumboTables.RoundTabled` | html_parser/parser.cpp:1864-1994 | a round keeps parts of tables in tables |
| `GumboTables.FollowsInTables` | html_parser/parser.cpp:1788-1996 | so does every outcome of a round with a block that is no table, and none pushes |
| `GumboTables.RunsInTables` | html_parser/parser.cpp:1784-1997 | so does every run of the adoption agency |
| `GumboRuns.ReadyReconstructed` | html_parser/parser.cpp:1237-1251 | reconstruction that is not fostered keeps the stack ready for the adoption agency |
| `GumboRuns.FitIsReady` | html_parser/parser.cpp:1784-1997 | the stack is ready for the adoption agency if and only if it is fit up to its top |
| `GumboRuns.FitReconstructed` | html_parser/parser.cpp:1237-1251 | how far the stack is fit after a reconstruction, wherever it was before |
| `GumboRuns.RunFit` | html_parser/parser.cpp:1784-1997 | after the adoption agency the stack is fit up to its top, or up to the node that was pushed |
| `GumboRuns.RebuildList` | html_parser/parser.cpp:1206-1252 | reconstruction, fostered or not, replaces the entries behind the last that is open or a marker by new clones and pushes these in their order; it keeps the list orderly and what was fit of the stack; from a ready stack it leaves it ready if and only if it has nothing to do or is not fostered without a table |
| `GumboRuns.AddNew` | html_parser/parser.cpp:1134-1157 | opening a formatting element pushes a new one and lists it, at the cost of the earliest of three that agree; so the list stays orderly; from a ready stack it leaves it ready if and only if it is not fostered without a table |
| `GumboRuns.OpenElement` | html_parser/parser.cpp:975-1005 | the same for opening any element |
| `GumboRuns.CloseTo` | html_parser/parser.cpp:866-893 | popping to any height keeps the list orderly and leaves fit what was fit of the rest, so that it can make the stack ready again |
| `GumboRuns.AddMark` | html_parser/parser.cpp:1134-1157 | a marker is put on the list and the list stays orderly |
| `GumboRuns.ClearList` | html_parser/parser.cpp:1254-1264 | the list up to the last marker is left, without that marker, and stays orderly |
| `GumboRuns.ApplyEdit` | html_parser/parser.cpp:1134-1264 | one edit of a run: what it leaves of list, stack, tree and flag, and that the list stays orderly |
| `GumboRuns.AdoptTag` | html_parser/parser.cpp:1784-1997 | with foster parenting on or off the adoption agency runs its rounds and keeps the list orderly, and the stack fit up to its top or up to the node that was pushed |
| `GumboRuns.RunList` | html_parser/parser.cpp:1134-1264 | over every run of elements opened, listed and closed, markers, reconstructions, clearings, foster parenting switched, and adoption agencies, in which each edit leaves its list, stack and flag to the next, no stretch of the list without a marker holds four entries that agree, and the stack is ready if and only if it is fit up to its top; the run ends early only at an adoption that pushes, or before one on a stack that is not fit |
| `GumboRuns.RunFromStart` | html_parser/parser.cpp:479-498 | so it is for every run from a new parser, whose list is empty |
| `GumboExamples.DeepBlock` | html_parser/parser.cpp:1884-1926 | a state with four elements between, reached by insertions, where the open elements leave the rightmost path |
| `GumboExamples.PushedBlock` | html_parser/parser.cpp:784-820 | a state, reached by insertions, where the last node is pushed and an element is open twice |
| `GumboExamples.LostBlock` | html_parser/parser.cpp:784-820 | a state, reached by insertions, after whose round no tree holds the block |

## Left out

- XmlText.SumDigits: gives the low byte of the number, which is all that is kept outside UTF-8; the 32-bit wrap-around of the digit weights does not reach it and is not modelled.
- XmlRoundTrip.RoundTrip: is about documents whose nodes can be printed: valid names, unique attribute names, values without hexadecimal references, condensed texts that do not touch, comments and CDATA without their end marker, declarations without quotes and ampersands, none of these with a NUL, and a layout of white space. `XmlRead.ReadsValueExactly` and `XmlRead.ReadsTextExactly` say that values and texts need their conditions.
- Utf8Iterators.Utf8Iterator.Reset: asks for a mark before the end of the input, where the code reads a character.
- GumboAgency.RunRound: asks, as the code asserts, that the elements visited have parents; a round whose common ancestor is part of a table is `GumboAgency.FosterRound`.
- GumboAgency.AdoptionAgency: ends at a round that pushes a node that is open already; the rounds that the code runs after it, on a stack with that node twice, are not described.
- GumboRuns.RunList: ends where the adoption agency is asked for on a stack with an element open twice, which the adoption agency here does not work on; all other edits go on. Of the tree a step of the run says which nodes are new; where they are put is stated by the methods it calls.
- What a run of several rounds in tables does to the leaves; what one such round does is stated.
- The insertion modes before the root html element is inserted.
- Gumbo's tokenizer, character references, insertion-mode handlers, quirks mode, framesets, foreign content and templates: the token stream decides which of the modelled operations run, not what they do.
- Gumbo's text node buffer (`maybe_flush_text_node_buffer`), comments, source positions, parse flags and the list of parse errors.
- Gumbo's vectors and allocators: a vector is a sequence here; capacities appear in the string buffer only.
- TinyXML's UTF-8 mode of reading text, the switch that turns condensing off, encoding detection and byte order marks, rows and columns.
- TinyXML's files and streams, `TiXmlHandle`, attribute queries, and copying: the nodes that insertion and replacement copy are parameters.
- TinyXML's ring of attributes: attributes are a sequence searched in order.
- The parser builds its nodes as values; how children are linked is modelled apart, in `XmlLinks`. The parent that `Identify` sets early is not part of either.
- A NUL character in the text that is parsed ends it in the source; in the model it is a character like any other. The printer does cut comments, CDATA, unknown tags and declarations at a NUL.
- zlib's inflate and deflate, gzip files and memory interfaces; the HTTP client, sockets, Lua, tcmalloc and the scanner program of the repository.
- The address of a buffer, which decides where aligned words start, is a parameter of the checksum loops.
