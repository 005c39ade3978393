# nbuf, modelled and proved in Dafny

nbuf is a zero-copy binary message format with two writers, a schema compiler, and a text form for
messages and schemas.  This project models the C implementation and proves what it is for:

- **Wire format** (`Bytes`, `Wire`): little-endian words, object headers, handles, element addressing,
  header validation, and the in-place accessors, as functions of the buffer contents.
- **Builder and serializer** (`Pool`, `Decode`, `Simulation`, `Unchecked`, `Buffer`, `Builder`, `Cells`, `Forest`):
  the pool of one buffer per object whose pointer words are object ids, the two-pass serializer, and the
  direct writer.  `Buffer` and `Builder` are classes over arrays; `Pool` is their value.
- **Layout of scalars** (`Layout`, `Losses`, `Allocator`, `Messages`, `Padding`, `Access`): the free list of padding
  holes, with the cell that the next hole goes to, exactly as the compiler keeps it; where holes get lost;
  message types and how far their elements are padded; and what the layout means for setters and getters.
- **Text form of messages** (`Lexer`, `Scanner`, `Tokens`, `Schemas`, `Reflection`, `Views`, `Texts`, `Printer`,
  `ValueParser`, `PoolParser`, `Parser`, `ParseSim`, `ParseSteps`, `ParseItems`, `ParseAgree`, `TextRoundTrip`,
  `TextFormat`, `ParseSize`): lexer, printer and parser as functions, the classes that run them step by step,
  and the proof that parsing through the builder gives the printed message back.
- **Text form of schemas** (`Names`, `SchemaCompiler`, `SchemaText`, `SchemaRoundTrip`): the table of type names,
  compilation, decompilation, the grammar, and their round trip.
- **The text forms as their users know them** (`Lexemes`, `Grammar`, `TextLines`, `SchemaForms`): every way to write
  a number, a string, a comment, a field or a declaration and what it means, the lines that are printed,
  and what is refused, each told over characters and without the functions above.

Objects are byte strings that start with their header; the bookkeeping record that precedes it in a
builder buffer is kept in fields of `Buffer`, and spelled out as bytes in `Unchecked`.  Input text is a
sequence of bytes, output text a sequence that grows.  Integers are unbounded; 16-, 32- and 64-bit
wrap-around is written out where the program relies on it or must be shielded from it.  `dafny verify dfyconfig.toml` verifies everything.

## Findings

Six places where the program does less than it is meant to.  The model keeps the program's behaviour; a
lemma shows an input, and another says exactly when the intent is met.

- *Cut holes.*  Splitting the last hole does not advance the cell for the next one
  (`nbufc/t2b.c:193-199`), so appending a hole (`nbufc/t2b.c:217-226`) can cut others off.
  `Layout.SplitLosesRest` gives seven fields, sizes 1, 8, 2, 2, 4, 8, 2, of which the last is placed at 20
  although 6 is free.  A placement has the smallest offset if and only if no hole that was cut off has
  room below it (`Layout.MinimalIff`, for whole lists `Layout.LayoutRuleIff`); the partition is exact if and
  only if nothing was ever cut off (`Layout.PartitionIff`).  All that is ever cut off was left behind when
  the hole in front of the cell was split (`Losses.LossFromCut`), so without that nothing is lost
  (`Losses.NoCutNoLoss`).
- *Alignment.*  `alignment` is not reset between messages (`nbufc/t2b.c:255`).  With `message A { x: int64 }` in
  front of it, an element of `message B { y: int8 }` takes 8 bytes instead of 1 (`Padding.CarriedPads`).  A
  message is as long as it would be alone if and only if that length is a multiple of the alignment
  reached before it (`Padding.CarriedIff`, for whole schemas `SchemaCompiler.PaddingIff`).  `spec.txt:23` asks
  for the minimum of 4 and the scalars' alignment where the code takes the maximum.  For a string and an
  int8 that would be 1 scalar byte, the code makes it 4 (`Padding.SpecMisaligns`); the sizes are the same
  if and only if the specified one suits the code's alignment (`Padding.SpecSizeIff`).
- *Unchecked slot.*  The builder's `put_ptr` (`lib/pool.c:70-81`) does not check the slot, the direct
  writer's does (`include/nbuf.h:453-454`).  `Unchecked.UncheckedSlotOverwrites` shows an element that is
  overwritten.  Such a store succeeds and leaves the two writers in step if and only if it stays inside
  the buffer and hits the recorded offset, which the serializer sets anew, or bytes that are the same
  already (`Unchecked.UncheckedSlotIff`; elements that do not exist are included).  Without that, padding
  hides it as long as the object does not grow (`Unchecked.SerializedAtOnceIff`, `Unchecked.GrownLaterIff`,
  with an input in `Unchecked.PaddingSurfaces`).
- *Shrinking.*  An object that shrinks within its last eight bytes keeps what it loses as padding
  (`include/nbuf.h:399-402`), which `spec.txt:29` wants to be zero, and shows it when it grows again
  (`Pool.ShrinkLeaves`).  It stays well-formed if and only if what it loses is zero (`Pool.ShrunkIff`).
- *String escapes.*  The printer does not escape the backslash (`lib/print.c:36-39`), and the lexer
  weighs the hexadecimal digits a-f wrongly (`lib/token.c:182`): a backslash and an n come back as a line
  feed, and the byte 31 as an F (`Tokens.EscapesLost`).  A string survives if and only if each of its bytes
  is printable and no backslash, or has a hexadecimal form without letters (`Tokens.StringSurvivesIff`).
- *Lists of bools.*  The first element of a list of bools is stored through a handle with no scalar bytes
  (`include/libnbuf.h:170-174`) and is lost (`include/nbuf.h:439`): the list [true] comes back as [false]
  (`TextRoundTrip.FirstBoolLost`).  A message comes back unchanged if and only if each of its lists of bools is
  empty or begins with false (`TextRoundTrip.RoundTripIff`).

## Model

| member | source | states |
|---|---|---|
| Bytes.UnLEofLE | include/nbuf.h:294-313 | Decoding the low n bytes of any integer, negative ones included, gives it modulo 256 to the n. |
| Bytes.LEofUnLE | include/nbuf.h:19-39 | Encoding a decoded byte string gives the same bytes. |
| Bytes.ByteOfLE | include/nbuf.h:19-39 | Byte i of an encoded number is the one of weight 256 to the i. |
| Wire.HeaderRoundTrip | include/nbuf.h:162-173 | An element count, a scalar size and a pointer count that fit their fields survive being packed into the header word and taken apart again. |
| Wire.HeaderCount | include/nbuf.h:404-404 | Overwriting the first four header bytes changes the element count and neither size. |
| Wire.HeaderLayout | spec.txt:7-14 | The header is four bytes of count, two of scalar size, two of pointer count, low bytes first. |
| Wire.HeaderValidation | include/nbuf.h:156-188 | A non-empty object is accepted if and only if its header and every one of its elements lie inside the buffer and its bit count does not wrap around in 32 bits. |
| Wire.ValidatedElements | include/nbuf.h:149-202 | Every element of an accepted object can be read, and the 64-bit size computations cannot overflow. |
| Wire.SetBitSpec | include/nbuf.h:434-447 | Setting one bit of a byte sets that bit, keeps the others and stays within the byte. |
| Wire.BitWeight | include/nbuf.h:269-276 | Bit j of a byte is the one of weight 2 to the j. |
| Buffer.Buffer.Reserve | include/nbuf.h:72-90 | Contents survive; the capacity becomes the old one, 64, or less than twice the need; all bytes ever moved by reallocation stay within the capacity. |
| Buffer.Buffer.Create | include/nbuf.h:327-365 | The buffer grows by exactly one zeroed object behind its header, and the handle points behind that header. |
| Buffer.Buffer.Resize | include/nbuf.h:377-405 | The last object grows by zero bytes, or shrinks within its last eight, and its count is rewritten; any other object is left alone. |
| Buffer.Buffer.PutPtr | include/nbuf.h:449-461 | Stores the distance in words from the slot to the header of the target; a slot beyond the pointer part is ignored. |
| Buffer.Buffer.PutStr | include/nbuf.h:471-484 | Appends the characters with a final NUL as an object of its own and links it. |
| Pool.CreateWF | lib/pool.c:91-125 | Creating an object keeps the pool well-formed: one object fills each buffer, pointers are null or lead to later ids. |
| Pool.SerCreate | lib/pool.c:127-197 | Creating an object appends exactly its bytes to what serialization yields. |
| Pool.WriteScalars | include/nbuf.h:407-447 | Writing bytes outside headers and pointer words keeps the pool well-formed and rewrites the same bytes of the serialized buffer. |
| Pool.WritePtr | lib/pool.c:70-81 | Storing a later id keeps the pool well-formed, changes that slot only, and stores the exact word distance in the serialized buffer. |
| Pool.GrownWF | include/nbuf.h:377-405 | A grown object keeps its old bytes, is zero behind them, and fills its buffer exactly. |
| Pool.ShrunkIff | include/nbuf.h:377-405 | An object that shrinks within its last eight bytes stays well-formed if and only if the elements it loses are zero. |
| Pool.ShrinkLeaves | include/nbuf.h:377-405 | Two bytes cut to one and grown again: the second has its old value. |
| Pool.SerGrowLast | include/nbuf.h:377-405 | Growing the newest object extends the serialized buffer at its end and rewrites one header word. |
| Decode.RelExact | lib/pool.c:171-182 | Every serialized pointer is null or a positive, exact distance to the 8-aligned header of a later object. |
| Decode.SerPtr | include/nbuf.h:204-231 | Following a pointer in the serialized buffer reaches the object that the id designates. |
| Decode.Meaning | lib/pool.c:127-197 | Reading the serialized buffer from any object down gives exactly the tree the builder holds, in at most as many levels as there are objects. |
| Decode.PoolComplete | spec.txt:49-53 | Such a tree never runs out of depth, so full decoding ends. |
| Simulation.StepSim | include/nbuf.h:327-484 | Each operation of the writing interface keeps the direct writer's buffer equal to the serialized pool, and handles in step. |
| Simulation.StepWF | lib/pool.c:54-125 | Each operation keeps ids in range and pointers forward, so the assertions on ids hold. |
| Simulation.BackendsAgree | lib/pool.c:54-197 | After any run from empty, flattening the pool gives the direct writer's buffer byte for byte, and all handles designate the same objects. |
| Simulation.OnlyLastGrows | include/nbuf.h:377-405 | In the direct writer only the newest object grows; asking it of another changes nothing. |
| Unchecked.UncheckedSlotOverwrites | lib/pool.c:70-81 | Through a missing slot of a list of scalars the builder overwrites the next element; the direct writer does nothing. |
| Unchecked.UncheckedSlotIff | lib/pool.c:70-81 | A store through any missing slot, of an element that exists or not, succeeds and keeps pool, records and the two writers in step if and only if it stays inside the buffer and hits the recorded offset or bytes that are the same already. |
| Unchecked.RecordsInStep | lib/pool.c:91-125 | Records put in front of any pool that legal runs reach are intact, so the above covers all of them. |
| Unchecked.SerializedAtOnceIff | lib/pool.c:127-197 | If the pool is serialized right away, such a store is also harmless where it falls into padding, and only there. |
| Unchecked.GrownLaterIff | include/nbuf.h:391-402 | Once the object has grown over the word, the store is harmless if and only if its bytes were there already. |
| Unchecked.PaddingSurfaces | include/nbuf.h:391-402 | A list of one uint16 with a store in its padding gains a second element that is not blank. |
| Builder.Builder.Create | lib/pool.c:91-125 | The new object has a buffer of its own and its id is its index. |
| Builder.Builder.GetPtr | lib/pool.c:54-68 | Delivers the id in a slot, 0 for null and for a slot beyond the pointer part, and the object it designates; the id is later than the object's own and in range, as the program asserts. |
| Builder.Builder.PutStr | include/nbuf.h:471-484 | Adds one string object with its characters and links it from the slot; everything else stays. |
| Builder.Builder.Resize | include/nbuf.h:377-405 | Any object of a builder can grow, because it ends its buffer, and shrink within its last eight bytes. |
| Builder.Builder.AssignOffsets | lib/pool.c:139-146 | The first pass records the offset of every object in the flat buffer and yields its total size. |
| Builder.Builder.Emit | lib/pool.c:155-187 | The second pass copies one object behind the cursor, its ids replaced, and leaves the cursor where the first pass put the next object. |
| Builder.Builder.Serialize | lib/pool.c:127-197 | The output array holds exactly the flat form of the pool. |
| Layout.PlaceInv | nbufc/t2b.c:168-248 | Every placement keeps the invariant: slots are disjoint, listed holes are free, sorted and not adjacent, the open bool byte comes first. |
| Layout.ChosenIsFree | nbufc/t2b.c:168-248 | The slot that is chosen is aligned and shares no bit with an earlier one. |
| Layout.MinimalIff | spec.txt:35-47 | The chosen offset is the smallest aligned free one, and then the only one the specification allows, if and only if no cut-off hole has room below it. |
| Layout.LayoutInv | nbufc/t2b.c:168-248 | The invariant holds after any list of scalars, and holes are lost if and only if some placement cut them off. |
| Layout.LayoutRuleIff | spec.txt:35-47 | The layout of a whole list is the specified one if and only if no step misses room in a cut-off hole. |
| Layout.NoDropsNoneMissed | nbufc/t2b.c:217-226 | A list that never cuts holes off misses no room. |
| Layout.PartitionIff | nbufc/t2b.c:168-248 | The scalar part is exactly scalars, the rest of the open bool byte, and listed holes if and only if nothing was cut off. |
| Layout.SplitLosesRest | nbufc/t2b.c:193-199 | Sizes 1, 8, 2, 2, 4, 8, 2 put the last field at 20 although bytes 6 and 7 are free. |
| Layout.LayoutConserves | nbufc/t2b.c:168-248 | The size of the scalar part is the scalars' bytes plus one byte for every eight bools begun plus all holes, listed or lost. |
| Losses.CellStep | nbufc/t2b.c:168-226 | For every bit: which placements move it across the cell (only what remains of a hole split in front of it), which use it up, and which lose it (only a new hole does, exactly what lies behind the cell). |
| Losses.DropsIff | nbufc/t2b.c:217-226 | A placement cuts holes off if and only if it leaves a gap at the end while a hole lies behind the cell. |
| Losses.LossFromCut | nbufc/t2b.c:193-226 | After any list, whatever is lost or behind the cell was left over from splitting the hole in front of it. |
| Losses.NoCutNoLoss | spec.txt:35-47 | A list that never does that is laid out by the rule of the specification and loses nothing. |
| Losses.UsedUpKeepsRest | nbufc/t2b.c:203-208 | Sizes 1, 2, 2, 4, 1, 8, 1 go to 0, 2, 4, 8, 1, 16 and 6: using a hole up keeps the cell behind the next one. |
| Allocator.Allocator.FindPaddingSpace | nbufc/t2b.c:168-215 | The loop finds the first hole that fits and divides it as the layout function does, or reports that there is none and changes nothing. |
| Allocator.Allocator.CalculateOffset | nbufc/t2b.c:228-248 | Offset, scalar size and free list become those of the layout function. |
| Messages.OutMsg | nbufc/t2b.c:262-320 | Compiling a message with the mutable allocator gives the tags and sizes of the compiled type, and an empty allocator. |
| Padding.AlignAside | nbufc/t2b.c:255-300 | The alignment a message is reached with changes nothing in its layout; what it leaves is the larger of that and the widest field's. |
| Padding.CarriedIff | nbufc/t2b.c:316-319 | A message has the size it would have alone if and only if that size fills the alignment brought along; tags and pointer count are always the same. |
| Padding.CarriedPads | nbufc/t2b.c:255 | An int8 behind a message with an int64 takes 8 bytes instead of 1. |
| Padding.SpecSizeIff | spec.txt:19-24 | The compiled size is the specified one if and only if the specified one fills the alignment the compiler takes. |
| Padding.SpecMisaligns | spec.txt:23-24 | For a string and an int8 the specification asks for 1 scalar byte; the compiler makes it 4. |
| Access.SlotInType | nbufc/t2b.c:282-322 | Every scalar field lies inside the scalar part at a multiple of its size. |
| Access.SlotsApart | nbufc/t2b.c:282-322 | Two scalar fields of a compiled type share no bit. |
| Access.PointerTags | nbufc/t2b.c:298-300 | Pointer fields get distinct, increasing indices below the pointer count. |
| Access.WriteThenRead | include/nbuf.h:243-276 | A field that was written reads back as the value cut to its width and sign-extended, or as the bool. |
| Access.OthersUnchanged | include/nbuf.h:407-447 | Writing a scalar field leaves every other integer, bool and pointer of the element. |
| Access.PointerLeavesOthers | include/nbuf.h:449-461 | Storing a pointer leaves every scalar and every other pointer of the element. |
| Access.OtherElements | include/nbuf.h:190-202 | Writing a field of one element leaves every field of every other element. |
| Access.PointerLeavesElements | include/nbuf.h:449-461 | Storing a pointer in one element leaves every field of every other element. |
| Access.ElementStride | nbufc/t2b.c:316-319 | Element sizes are multiples of every scalar size and, with pointers, of a word. |
| Access.AlignedScalars | include/nbuf.h:359-359 | Every scalar of every element of an 8-aligned object lies at a multiple of its size. |
| Access.AlignedPointers | include/nbuf.h:352-353 | Every pointer of every element lies at a multiple of 4. |
| Cells.FieldCells | include/nbuf.h:407-447 | Writing a field of one pool element changes the scalar part of that element only, and no pointer. |
| Cells.BitCells | include/nbuf.h:434-447 | Storing one bit of a bit list changes that bit only and keeps unused bits zero. |
| Cells.GrowCells | include/nbuf.h:377-405 | Old elements and bits survive growing; new elements read as never written. |
| Forest.TreeAgrees | include/nbuf.h:233-241 | The tree below an object depends only on the objects from it on that something there leads to. |
| Scanner.Scanner.Lex | lib/token.c:240-275 | The character loops deliver exactly the token, and leave exactly the input, of the lexer function. |
| Scanner.Scanner.ScanNum | lib/token.c:54-120 | Numbers in all bases, with fractions and exponents, are taken as the lexer function says. |
| Scanner.Scanner.ScanStr | lib/token.c:153-218 | String literals with escapes, joined literals and unclosed ones included, are read as the lexer function says. |
| Lexemes.Classes | lib/token.c:122-139 | The characters of numbers, identifiers, white space and printable text. |
| Lexemes.HexNumber | lib/token.c:54-120 | Behind 0x or 0X, digits in any mixture of cases read as their value to the base 16, cut off at 64 bits; a minus negates. |
| Lexemes.OctalNumber | lib/token.c:54-120 | Behind a 0, octal digits read as their value to the base 8. |
| Lexemes.DecimalNumber | lib/token.c:54-120 | Other digits read as their value to the base 10; values out of range become the nearest 64-bit one. |
| Lexemes.BasesRoundTrip | lib/token.c:54-120 | Every 64-bit word, written to the base 16 in either case, or to the base 8, reads back. |
| Lexemes.FloatNumber | lib/token.c:88-101 | A number with a fraction or an exponent is taken whole, as a floating point number. |
| Lexemes.PieceReads | lib/token.c:153-218 | What each escape sequence and each plain character of a string stands for. |
| Lexemes.OctalEscape | lib/token.c:186-194 | An octal escape takes one to three digits. |
| Lexemes.HexEscape | lib/token.c:178-185 | A hexadecimal escape of one digit. |
| Lexemes.BadEscape | lib/token.c:175-197 | Where no escape begins, the character behind the backslash is delivered and read again. |
| Lexemes.StringToken | lib/token.c:153-218 | String literals with white space between them are one string: the bytes of all their characters. |
| Lexemes.LineComment | lib/token.c:9-17 | Comments to the end of the line read as white space. |
| Lexemes.BlockComment | lib/token.c:19-35 | So do comments between slashes and stars; one that is not closed takes all the rest. |
| Lexemes.StraySlash | lib/token.c:247-254 | A slash that begins no comment is dropped with the character behind it. |
| Lexemes.OtherCharacter | lib/token.c:261-275 | Any other character is a token of its own. |
| Tokens.NumberRoundTrip | lib/token.c:54-120 | The decimal text of any int64 or uint64 followed by white space reads back as that 64-bit word and leaves the rest. |
| Tokens.NameRoundTrip | lib/token.c:122-139 | An identifier followed by anything that is no identifier character reads back whole. |
| Tokens.StringRoundTrip | lib/print.c:28-43 | The printed literal of any string of safe bytes reads back as its bytes when no further literal follows. |
| Tokens.StringSurvivesIff | lib/print.c:28-43 | Exactly the strings of safe bytes survive printing and reading. |
| Tokens.EscapesLost | lib/token.c:141-190 | A backslash and an n come back as a line feed, the byte 31 comes back as an F. |
| Reflection.FindField | lib/refl.c:75-91 | The search delivers the first field of that name, or that there is none. |
| Schemas.CompiledLaidOut | nbufc/t2b.c:250-323 | A description with compiled tags and sizes has aligned, disjoint fields inside its element. |
| Views.ViewTyped | include/libnbuf.h:45-153 | Whatever the buffer holds, typed readers deliver values that fit the kinds and sizes of their fields. |
| Printer.Printer.DumpStr | lib/print.c:28-43 | The loop writes the literal with quotes and unprintable bytes escaped. |
| Printer.Printer.PrintList | lib/print.c:116-162 | Advancing a reference element by element, through bytes and bits, writes the items of the decoded object: all of a list, the first of a message. |
| Printer.Printer.DoPrint | lib/print.c:90-165 | The text written for a serialized message is the text of the message a typed reader sees. |
| TextLines.WholeText | lib/print.c:90-165 | The text is its lines: each value on one, a message between two, indented by the increment times the depth and ended by a line feed; with a negative increment not indented, and ended by a space. Bools, decimal numbers, the first name of an enum value, and quoted strings stand for values. |
| TextLines.OneLine | lib/print.c:95 | With a negative increment no line feed is written. |
| TextRoundTrip.LiteralBack | lib/parse.c:42-145 | The printed form of any value that is no message reads as a literal that the field stores as that value. |
| TextRoundTrip.RoundTrip | lib/parse.c:147-226 | Printing any typed message with any indentation and parsing the text takes all of it and gives the message back, the first element of each list of bools cleared. |
| TextRoundTrip.RoundTripIff | lib/parse.c:147-226 | It comes back unchanged if and only if each list of bools is empty or begins with false. |
| TextRoundTrip.FirstBoolLost | include/libnbuf.h:168-175 | A message with the list of bools [true] comes back with [false]. |
| ParseSteps.ItemBytes | lib/refl.c:93-123 | How many bytes the items of a list take: a bit for a bool, two bytes for an enum, the width of an integer, a word for a string, an element for a message. |
| ParseSteps.FirstStep | include/libnbuf.h:168-175 | A list or message field without an object gets one with a single blank element; other fields stay. |
| ParseItems.GrowStep | include/libnbuf.h:160-167 | A list field with an object gains one blank element; other elements, fields and objects stay. |
| ParseItems.ItemStep | include/libnbuf.h:156-177 | A change below the last item of a field changes that item of the message and nothing else. |
| ParseAgree.PutStep | include/libnbuf.h:69-126 | Storing a literal through a reference changes the item it designates to the value cut to the field; the first element of a list of bools stays false. |
| ParseAgree.MsgAgrees | lib/parse.c:147-199 | For any input the parser on the pool stops where the parser on values does, with the same status and the same message, and the pool stays well-formed. |
| Parser.Parser.ParseMsg | lib/parse.c:147-199 | The loop over fields, driving lexer and builder, leaves the pool, status and position of the parser function. |
| Parser.Parse | lib/parse.c:201-226 | Parsing a whole input leaves a well-formed pool, no builder assertion fails, and if the input is short for the schema the pool can be serialized. |
| TextFormat.ParsesAnything | lib/parse.c:201-226 | For any input up to half a gigabyte: the root of the pool holds the message of the value parser, ids are in range and forward, and no assertion or bounds check of the builder fails. |
| Grammar.SourceReads | lib/parse.c:147-226 | Every text of the grammar, with any white space, separators, colons in front of braces, numbers, words and strings for values, is taken whole and gives the message its fields make one after the other. |
| Grammar.SourceParsed | lib/parse.c:147-226 | Through the builder the same message ends up at the root of the pool. |
| Grammar.BoolFromNumber | lib/parse.c:42-72 | Every 64-bit number in a bool field stores whether it is not zero. |
| Grammar.StoresOrRejects | lib/parse.c:42-145 | A written value is stored as one value or refused: numbers are cut to the field's width, enum names stand for their first entry. |
| Grammar.ValueRefused | lib/parse.c:42-145 | A value that does not suit its field ends the parser with an error, or at the assertion on strings, and the message keeps what was read. |
| Grammar.Missing | lib/parse.c:170-188 | A value without its colon and a message without its brace are refused. |
| Grammar.StopsAtName | lib/parse.c:153-168 | An unknown field and a single message given twice end the message. |
| Grammar.NotClosed | lib/parse.c:186-190 | A message that is not closed is refused, and so is whatever goes on behind the last field. |
| TextFormat.FlatIsPool | lib/pool.c:127-197 | The serialized buffer shows a typed reader the message at the root of the pool. |
| TextFormat.TextRoundTrip | lib/print.c:167-178 | Text of any serialized message parses, all of it, into a pool whose serialized form shows the same message, first elements of lists of bools cleared. |
| ParseSize.ParsedSize | lib/parse.c:147-226 | What is parsed takes, serialized, at most the largest element of the schema (8 bytes at least) and 16 bytes for each byte of the input and one for the root. |
| ParseSize.ShortRoundTrip | lib/print.c:167-178 | If that is below 2^33 bytes, the text of a serialized message parses into a pool that serializes to the same message, first elements of lists of bools cleared. |
| TextFormat.ListGrowth | include/libnbuf.h:155-177 | k requests for an element give k blank elements more; earlier elements, other fields and other objects stay; the header counts the elements. |
| Names.AdjacentSuffices | nbufc/t2b.c:98-102 | In a sorted table, comparing neighbours finds every duplicate. |
| Names.TableAnswers | nbufc/t2b.c:26-31 | If the check passes, the entry found under a name in the sorted table is the one declared under it. |
| Names.TableRefuses | nbufc/t2b.c:98-102 | If the check fails, some name was declared twice. |
| Names.CheckNames | nbufc/t2b.c:98-102 | The loop accepts exactly the tables without duplicate names. |
| Names.MakeLookup | nbufc/t2b.c:68-97 | The table holds built-in types, enums and messages with their kinds and indices; too many types are refused. |
| Names.Lookup | nbufc/t2b.c:26-31 | Searching the sorted table gives the declared entry of a name, or nothing. |
| SchemaCompiler.TypeCompiled | nbufc/t2b.c:250-323 | Every message of a compiled schema carries the tags and sizes of the compiled type for the largest alignment of the messages in front of it. |
| SchemaCompiler.PaddingIff | nbufc/t2b.c:250-323 | In a whole schema a message has the size it would have alone if and only if that size fills the alignment reached before it. |
| SchemaCompiler.OutMsgs | nbufc/t2b.c:250-323 | Compiling the messages in turn, types looked up in the sorted table, one allocator and the alignment carried along, gives the compiled types, or stops at an unknown type. |
| SchemaCompiler.NbufT2b | nbufc/t2b.c:358-367 | Collecting, sorting, checking and searching the names and laying out the messages gives the compiled schema, or refuses exactly the schemas that do not compile. |
| SchemaText.PrintAll | nbufc/b2t.c:81-97 | The decompiler's loops write package, enums and messages as the text function says. |
| SchemaForms.SchemaShown | nbufc/b2t.c:55-97 | The text of a schema, with its comments on where fields lie and how large messages are. |
| SchemaRoundTrip.SourceNamed | nbufc/nbuf.y:39-145 | Whatever the grammar accepts has identifiers that are no keywords for names, and 16-bit enum values. |
| SchemaForms.SourceDeclares | nbufc/nbuf.y:39-145 | Every schema of the grammar, with any white space, declares what it says: enums and messages in order; constants get their own values cut to 16 bits, or go on from their predecessors, the first from 0. |
| SchemaForms.NoDeclaration | nbufc/nbuf.y:39-81 | Behind any number of declarations, what begins no further one is refused. |
| SchemaForms.EndsAtNul | nbufc/nbuf.y:39-41 | A NUL character ends the schema. |
| SchemaForms.HeadRefused | nbufc/nbuf.y:51-81 | A declaration without name or brace is refused. |
| SchemaForms.BodyRefused | nbufc/nbuf.y:51-81 | A declaration that is not closed is refused. |
| SchemaForms.ValueRefused | nbufc/nbuf.y:100-110 | An equals sign without a number is refused. |
| SchemaForms.FieldRefused | nbufc/nbuf.y:112-145 | A field without colon or type, or with an open bracket, is refused. |
| SchemaForms.PackageRefused | nbufc/nbuf.y:43-49 | A package without a name is refused. |
| SchemaForms.CompilesIff | nbufc/t2b.c:67-103 | A schema compiles if and only if it has at most 8192 types with the built-in ones, their names differ, and every field has a type. |
| SchemaForms.BuiltinTypes | nbufc/t2b.c:37-50 | The built-in types with their names, kinds and sizes. |
| SchemaRoundTrip.TypeNameBack | nbufc/b2t.c:26-53 | The type name printed for a field is the one it was declared with. |
| SchemaRoundTrip.SchemaRoundTrip | nbufc/b2t.c:55-97 | Decompiling what any accepted schema compiles to gives a text that parses to the same source and compiles to the same schema, tags and sizes included. |
| SchemaRoundTrip.CompiledSchemaOK | nbufc/t2b.c:250-323 | Messages of a compiled schema satisfy all that printing and parsing rely on. |

## Left out

- Decode.Meaning: assumes a flat size below 2^33 bytes, so that relative pointers fit 31 bits; the same bound is on `Builder.Builder.Serialize` and on the flat half of `TextFormat.TextRoundTrip`, and `ParseSize.ParsedSize` says which inputs meet it.
- Simulation.StepSim: bit lists of 2^32 - 7 elements and more are not created, as their rounded-up count wraps around in 32 bits; stores through missing slots are in `Unchecked`, shrinking in `Pool.ShrunkIff`.
- Buffer.Buffer.Resize: an object that would end eight bytes earlier is excluded, because the program then calls memset with a length below zero.
- Builder.Builder.Resize: the same bound on shrinking.
- Builder.Builder.PutStr: asks for an existing slot, which the program does not check; see `Unchecked.UncheckedSlotIff`.
- Unchecked.GrownLaterIff: the id that is stored is later than the object's own, as serialization asserts; so it is in `Unchecked.SerializedAtOnceIff`.
- Messages.OutMsg: asks that the scalar part fits 16 bits, where the program would wrap around silently.
- SchemaCompiler.OutMsgs: the same for every message up to the first that has an unknown type; also in `SchemaCompiler.NbufT2b`.
- SchemaRoundTrip.CompiledSchemaOK: asks for scalar and pointer parts that fit 16 bits and for schemas without floating point fields.
- SchemaRoundTrip.SchemaRoundTrip: compares schemas as values with unbounded sizes; the compiled binary is not decoded.
- Parser.Parse: asks for inputs of at most 2^29 bytes, so that ids and counts cannot run out.
- Printer.Printer.DoPrint: asks that the objects behind strings and lists of bools hold no pointers and that strings do not claim more characters than their object has bytes; the program then prints pointer words or stops at an assertion.
- TextFormat.TextRoundTrip: field names unique in their message, value names unique in their enum, strings of safe bytes; the compiler checks type names only.
- Views.ViewTyped: schemas with floating point fields are excluded, and a string object that holds pointers reads as empty, where the program would deliver its pointer words.
- Floating point: fields are laid out and schemas with them are compiled, printed and parsed; reading, printing and parsing values is library code.
- The schema as a binary: compilation yields the schema as a value; storing it through generated accessors is not modelled.
- Bison's tables: the grammar is a recursive-descent parser.
- `qsort`, `bsearch`, `strtoll`, `strtoull`: sorting is any sorted permutation (an insertion sort in `SchemaCompiler.NbufT2b`), searching a binary search, conversion the value of a digit string, saturated to 64 bits.
- Line numbers and error messages of the lexer and the parsers.
- Allocation failure, lifetimes, files, and the byte-swapping and unchecked build variants.
- Untyped printing, RPC, the C, C++ and Python generators, and the Python runtime.
