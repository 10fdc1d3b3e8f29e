# Layout, addressing and integers of Convert::Binary::C

This project models how Convert::Binary::C lays out C types in memory, names every byte of a layout,
moves values in and out of it, and calculates with integers wider than the machine's, and proves
that these parts keep what the library relies on.

- **Simulated integers** (`Simul*.dfy`): the preprocessor's arithmetic on an N-bit integer held in two
  words, for every N up to twice the width of the C type that holds a word. `Num` is the pair of words,
  `Val` and `SVal` are the unsigned and the two's complement number it stands for.
- **Integer codec** (`IntegerCodec`, `IntegerMemory`, `IntegerStrings`, `IntegerValues`): shifting, masking and merging
  64-bit values, storing them to bytes and fetching them, and converting them to and from strings, each
  in the native form and in the form that works on two 32-bit halves. `IntegerBytes` says what bytes mean
  as numbers of base 256, `NumeralLiterals` and `IntegerPrefixes` what digits, signs and prefixes mean.
- **Bitfield engines** (`Bitfields`, `BitfieldSafety`, `BitfieldPlaces`, `ContainerEnds`, `Intervals`): the
  three layouters as classes. What a push does to an engine is a function, the class is proved to compute
  it, and the lemmas say where fields land over every run of pushes and that it is the first place with room.
- **Layout** (`CTypes`, `Layout`, `LayoutTight`, `LayoutLikeness`, `UnionLayout`, `LayoutSafety`,
  `LayoutAlignment`, `SecondLayout`, `LayoutDriver`, `LayoutOnDemand`): sizes and alignments, the layout
  loop with its shared layouter, laying out whole types, again after the configuration has changed, and
  laying out a list of structs that use one another. `LayoutTight` has the offsets and sizes in terms of the
  members alone.
- **Member expressions** (`Walker`, `WalkerSpaces`, `MemberStrings`, `MemberRanks`, `MemberLookup`,
  `MemberMeaning`, `MemberRoundTrip`, `MemberPointers`): from an offset to an expression such as
  `.a[2].b+1` and back. `MemberRanks` says when an expression is a hit, `MemberMeaning` what any expression
  means.
- **Packing** (`PackBuffer`, `Packing`, `PackingRoundTrip`, `PackingMeaning`, `PackingWrites`): writing a value
  into a buffer along the type tree and reading it back. Its proofs are about single bits of the buffer,
  since bitfields share bytes with their neighbours. `PackingMeaning` says which bytes every integer is read
  from and what they say, `PackingWrites` what packing makes of them.
- **Cloning** (`ParseInfoClone`): the two-pass copy of the parser's cyclic object graph.

Struct layout is the implementation-defined part of section 6.7.2.1 of ISO/IEC 9899:1999; the
arithmetic follows sections 6.4.4.1, 6.5.5 and 6.5.7. Struct and declarator records are values: the
layout routine returns a compound with its results filled in. The routines that work step by step are
methods with loops, the engines, the token walker, the pack handle, the string buffers and the graph
nodes are classes.

## Findings

Where the code does not meet what one would expect of it, the model keeps the code, and the exact
condition under which the expectation holds is proved.

- When the low word fills the C type, as with 64 bits on a type of 32, some shifts shift a word by its
  whole width, which C gives no meaning: to the left by a nonzero multiple of N, to the right by any
  multiple of N, zero included, and a negative number also by half of N when both words fill the type
  (`SimulWords.LshDefinedExact`, `SimulWords.RshDefinedExact`, `SimulWords.SignedRshDefinedExact`).
  Division and the constant parsers never ask for one.
- Multiplication on an odd low-word width is wrong for some operands; `SimulMultiply.StarExactIff` says
  for which.
- Signed division gives the remainder the sign of the quotient. So `x = q * y + r` fails for negative
  divisors unless the division is exact (`SimulDivision.Sdiv`); 1 / -2 is 0 with the remainder -1.
- In the generic engine a zero-width bitfield can move the position back, and the next field then shares
  bits with an earlier one. It happens for exactly those type sizes that exceed the alignment limit
  (`BitfieldSafety.ZeroWidthSafe`, `BitfieldSafety.ZeroWidthOverlap`).
- A bitfield in a union replaces the size that the alternatives before it needed:
  `union { char x[10]; char b:1; }` has one byte. `UnionLayout.UnionCoversExact` is the exact condition
  under which a union covers all its alternatives.
- The layout routine does not clear a compound's size but goes on from it. A second run on a struct
  agrees with the first exactly if the size was cleared or is zero anyway
  (`SecondLayout.SecondRun`); `struct { int a; }` gets a at offset 4 and eight bytes.
- A struct that is laid out on demand in the middle of an open run of bitfields leaves the shared layouter
  changed, and the run ends at another offset (`LayoutOnDemand.OpenRunDisturbed`). Without bitfields the
  order does not matter (`LayoutOnDemand.StructList.Update`).
- Relative to an array of pointers, the routine that prints an expression goes on into what the pointers
  point to, and the lookup rejects it: `[0].x` for `struct foo *p[3]`. The round trip fails exactly there
  (`MemberPointers.RoundTripExact`).
- The comment before the decimal overflow test allows for an `ARITH_ALPHA` of 5; it is always even, so
  that branch is never taken (`SimulConstants.TimesTenGuard`).
- An enum that does not fit the buffer leaves the byte order of its tag in force; only the routine that
  called for it puts the old one back (`Packing.PackInfo.UnpackEnum`, `Packing.PackInfo.UnpackType`).
- With the generic engine a struct can end before the container of its last bitfield does. With limits that
  are powers of two this happens for exactly those types that are at least four times as large as the limit
  (`ContainerEnds.ContainersInsideExact`). `struct { int a:17; }` aligned to bytes has a size of three; its
  member cannot be read from three bytes, and packing it makes them four (`ContainerEnds.TooShort`).
- The prefix of hexadecimal strings is only known in lower case: `0X10` counts as no integer and is read as 0
  (`IntegerPrefixes.UpperPrefix`).
- A lone `0` is an octal number to `string_is_integer` (`IntegerStrings.PrintedIsInteger`).

## Model

| member | source | states |
|---|---|---|
| `SimulWords.PlusRefines` | ucpp/arith.c:925-932 | two-word addition is addition modulo 2^N, for every N up to twice the width of the C type |
| `SimulWords.NegRefines` | ucpp/arith.c:899-911 | negation is negation modulo 2^N, and of the signed value except for the least one |
| `SimulWords.MinusRefines` | ucpp/arith.c:934-937 | subtraction is subtraction modulo 2^N, and exact when nothing is borrowed |
| `SimulWords.CompareRefines` | ucpp/arith.c:980-990 | the word-wise comparisons agree with the order of the numbers, unsigned and signed |
| `SimulWords.LshRefines` | ucpp/arith.c:939-960 | left shift is multiplication by a power of two modulo 2^N, for every N and whatever the code makes of the count, wherever C gives the shift a meaning |
| `SimulWords.RshRefines` | ucpp/arith.c:962-978 | unsigned right shift is floor division by a power of two, wherever C gives it a meaning |
| `SimulWords.SignedRshRefines` | ucpp/arith.c:1245-1264 | signed right shift is floor division of the two's complement value, wherever C gives it a meaning |
| `SimulWords.LshDefinedExact` | ucpp/arith.c:939-960 | all C shifts of a left shift have a meaning unless the low word fills the C type and the count is a nonzero multiple of N |
| `SimulWords.RshDefinedExact` | ucpp/arith.c:962-978 | the same of a right shift, where a count of zero has no meaning either |
| `SimulWords.SignedRshDefinedExact` | ucpp/arith.c:1245-1264 | the same of a signed right shift, with one more count for negative numbers when both words fill the C type |
| `SimulWords.UndefinedShifts` | ucpp/config.h:66-68 | with 64 bits on a type of 32, left by 64, right by 0 and a negative number right by 32 have no meaning |
| `SimulMultiply.StarExactIff` | ucpp/arith.c:1045-1081 | the product is x*y modulo 2^N if and only if the low word's width is even, or y's low word lacks its top bit, or x's low word is zero |
| `SimulMultiply.StarUnreduced` | ucpp/arith.c:1045-1081 | what the four half-word products and their carries add up to in every case, odd widths included |
| `SimulMultiply.OddWidthCounterexample` | ucpp/arith.c:1060-1078 | with five bits, 2 times 4 does not come out as 8 |
| `SimulDivision.Udiv` | ucpp/arith.c:1087-1116 | x = q*y + r with r < y, for every x, every y other than zero and every width |
| `SimulDivision.HighestBit` | ucpp/arith.c:1090-1099 | the search of the divisor's top bit finds it |
| `SimulDivision.Rounds` | ucpp/arith.c:1100-1114 | the loops keep a = y*2^j, remaining x < 2*a, and quotient so far times y plus the rest equal to x |
| `SimulDivision.Sdiv` | ucpp/arith.c:1332-1342 | magnitudes always divide with remainder; the quotient truncates toward zero exactly when it is not MIN / -1; x = q*y + r exactly when moreover y > 0 or the division leaves no remainder |
| `SimulDivision.NegativeDivisorRemainder` | ucpp/arith.c:1340-1341 | 1 / -2 gives 0 with the remainder -1, and 1 is not 0 * -2 - 1 |
| `SimulDivision.Slash` | ucpp/arith.c:1385-1396 | signed division signals division by zero and overflow exactly when they occur and truncates toward zero otherwise |
| `SimulConstants.TimesTenGuard` | ucpp/arith.c:1435-1451 | the test on the two words fires exactly when ten times the number does not fit N bits: the low-word threshold is justified |
| `SimulConstants.DecConst` | ucpp/arith.c:1429-1475 | decimal constants are too large exactly when their value is 2^N or more; otherwise the value is exact, and signed exactly when below 2^(N-1) |
| `SimulConstants.OctConst` | ucpp/arith.c:1408-1427 | the same for octal constants |
| `SimulConstants.HexConst` | ucpp/arith.c:1477-1495 | the same for hexadecimal constants |
| `SimulConstants.ShiftGuard` | ucpp/arith.c:1412-1416 | the high word exceeds its limit exactly when appending a digit does not fit |
| `SimulConstants.ConstMeans` | ucpp/arith.c:1408-1495 | a constant written in base 8, 10 or 16, the digits taken from their alphabet, is read as the number it is, up to its last digit, or is too large |
| `IntegerCodec.NativeWord.ShiftInteger` | ctlib/byteorder.c:823-872 | native shifts move the bits of the value |
| `IntegerCodec.NativeWord.MaskInteger` | ctlib/byteorder.c:891-946 | native masking keeps the field's bits, clears those below, and clears or sign-fills those above |
| `IntegerCodec.NativeWord.MergeInteger` | ctlib/byteorder.c:965-998 | native merging takes the field's bits from the source and all others from the destination |
| `IntegerCodec.SplitWord.ShiftInteger` | ctlib/byteorder.c:823-872 | shifts across the two halves do the same to the joined value, from 1 to 63 bits |
| `IntegerCodec.SplitWord.MaskInteger` | ctlib/byteorder.c:891-946 | masking halves is masking the joined value |
| `IntegerCodec.SplitWord.MergeInteger` | ctlib/byteorder.c:965-998 | merging halves is merging the joined values |
| `IntegerMemory.StoreBits` | ctlib/byteorder.c:1218-1286 | storing sets the bits of the field and leaves every other bit of the container |
| `IntegerMemory.FetchBits` | ctlib/byteorder.c:1117-1181 | fetching yields the field's bits, extended by its sign bit when asked |
| `IntegerMemory.FetchAfterStore` | ctlib/byteorder.c:1117-1286 | fetching what was stored gives the value modulo 2^bits, sign-extended when asked, in both byte orders |
| `IntegerMemory.InRange` | ctlib/byteorder.c:1117-1286 | a value in the range of the field comes back unchanged |
| `IntegerMemory.StoreFetched` | ctlib/byteorder.c:1117-1286 | storing what was fetched changes nothing |
| `IntegerMemory.StoresCommute` | ctlib/byteorder.c:1218-1286 | stores to disjoint fields of one container commute |
| `IntegerMemory.FetchNative` | ctlib/byteorder.c:1117-1174 | the routine on a byte array up to the value, with 64-bit integers |
| `IntegerMemory.FetchSplit` | ctlib/byteorder.c:1117-1174 | the routine on two halves gives the same 64 bits |
| `IntegerMemory.StoreNative` | ctlib/byteorder.c:1227-1286 | once the value is known, the routine writes the container's bytes and no others |
| `IntegerMemory.StoreSplit` | ctlib/byteorder.c:1227-1286 | the routine on two halves writes the same bytes |
| `IntegerBytes.FetchMeans` | ctlib/byteorder.c:1117-1181 | what is fetched is the integer in the field of the number that the bytes are in base 256, written from the end the byte order says |
| `IntegerBytes.StoredByte` | ctlib/byteorder.c:1218-1286 | the byte of significance k of a container that is stored as a whole is digit k of the value |
| `IntegerStrings.TablesSplit` | ctlib/byteorder.c:583-588 | the two tables are quotient and remainder of multiples of 2^32 by ten |
| `IntegerStrings.DivideByTen` | ctlib/byteorder.c:581-605 | one step of the loop over the high half is an exact division of the 64-bit value by ten |
| `IntegerStrings.TwentyDigits` | ctlib/byteorder.c:542-562 | twenty digit slots suffice for every 64-bit value |
| `IntegerStrings.Integer2StringNative` | ctlib/byteorder.c:534-622 | the native routine prints the decimal form |
| `IntegerStrings.Integer2StringSplit` | ctlib/byteorder.c:566-622 | so does the routine on two halves |
| `IntegerStrings.String2IntegerNative` | ctlib/byteorder.c:642-742 | the native routine reads sign and base and the value of the digits modulo 2^64 |
| `IntegerStrings.String2IntegerSplit` | ctlib/byteorder.c:743-804 | so does the routine on two halves |
| `IntegerStrings.PrintThenParse` | ctlib/byteorder.c:534-803 | parsing what was printed gives back the 64-bit pattern, signed or unsigned |
| `IntegerStrings.StringIsInteger` | ctlib/byteorder.c:1018-1070 | the base is reported exactly when nothing but spaces follows the digits |
| `IntegerStrings.PrintedIsInteger` | ctlib/byteorder.c:1018-1070 | what was printed counts as an integer, with base 10, or 8 for zero |
| `IntegerPrefixes.NumeralMeans` | ctlib/byteorder.c:642-804 | spaces, a sign, spaces, a prefix and the digits of v in its base, in either case, are read as the pattern of v or -v: 0x for 16, 0b for 2, 0 for 8 and none for 10, for every v, modulo 2^64 |
| `IntegerPrefixes.NumeralCounts` | ctlib/byteorder.c:1018-1070 | such a string, with spaces after it too, counts as an integer of just that base |
| `IntegerPrefixes.GarbageDoesNot` | ctlib/byteorder.c:1018-1070 | with anything else after it, it counts as none |
| `IntegerPrefixes.UpperPrefix` | ctlib/byteorder.c:669-714 | `0X10` counts as none, and is read as 0 |
| `NumeralLiterals.DigitsAre` | ctlib/byteorder.c:716-742 | a character is a digit of a base if and only if it is in the base's alphabet |
| `IntegerValues.FetchIntegerNative` | ctlib/byteorder.c:1117-1181 | the whole routine: the value, and its decimal string when one is asked for |
| `IntegerValues.FetchIntegerSplit` | ctlib/byteorder.c:1117-1181 | the same on two halves |
| `IntegerValues.StoreIntegerNative` | ctlib/byteorder.c:1218-1286 | the whole routine: what is stored is the value, or what the string given instead says |
| `IntegerValues.StoreIntegerSplit` | ctlib/byteorder.c:1218-1286 | the same on two halves |
| `IntegerValues.StringComesBack` | ctlib/byteorder.c:534-1286 | an integer in the range of a field that is stored as a decimal string is read back as the same string |
| `Bitfields.GenericEngine.Push` | ctlib/bitfields.c:252-355 | the engine's state and the declarator's place are those of the push function |
| `Bitfields.MicrosoftEngine.Push` | ctlib/bitfields.c:468-553 | the same, with its error for fields wider than their type |
| `Bitfields.SimpleEngine.Push` | ctlib/bitfields.c:663-714 | the same |
| `BitfieldSafety.GenericLands` | ctlib/bitfields.c:252-355 | a pushed field gets bits between the old and the new cursor in a container no larger than its type, whichever end bits are numbered from; the cursor never moves back and the search for room ends |
| `BitfieldSafety.MicrosoftLands` | ctlib/bitfields.c:468-553 | the same for the Microsoft engine, with 0 <= bit_offset <= 8 * cur_type_size kept |
| `BitfieldSafety.SimpleLands` | ctlib/bitfields.c:663-714 | the same for the simple engine, with 0 <= bits_left <= 8 * block_size kept |
| `BitfieldSafety.SameSpan` | ctlib/bitfields.c:330-345 | in both byte orders a push does the same to the engine, and the field gets the same container and the same bits, numbered from the least or from the most significant one |
| `BitfieldSafety.RunChain` | ctlib/bitfields.c:226-744 | over every run of pushes the fields' bits follow one another between the first and the last cursor |
| `BitfieldSafety.RunContainers` | ctlib/bitfields.c:468-714 | containers of different units never overlap with the Microsoft and the simple engine |
| `BitfieldSafety.FinalizeLands` | ctlib/bitfields.c:374-386 | finalizing leaves no field's bits behind, and the generic engine rounds up by less than a byte |
| `BitfieldSafety.FinalizePasses` | ctlib/bitfields.c:572-744 | finalizing returns an offset past every container |
| `BitfieldSafety.ZeroWidthExact` | ctlib/bitfields.c:274-307 | a zero-width field moves the position back exactly when the unit it closes reaches past the next multiple of the type size |
| `BitfieldSafety.ZeroWidthSafe` | ctlib/bitfields.c:252-307 | from no sane state does a zero-width field move back, if and only if its type size is at most the alignment limit |
| `BitfieldSafety.ZeroWidthOverlap` | ctlib/bitfields.c:298-355 | after it moved back, the next field is put onto bits that are taken |
| `BitfieldSafety.MovesBackReached` | ctlib/bitfields.c:252-307 | such states are reached by one field for every limit below the type size |
| `BitfieldPlaces.GenericPlaces` | ctlib/bitfields.c:252-355 | a field goes to the first multiple of its unit alignment, from the unit the engine is in on, from which the bits in use and the field fit one unit of its type; it starts at the first free bit there, in the smallest container of 1, 2, 4 or 8 bytes that reaches it |
| `BitfieldPlaces.GenericRest` | ctlib/bitfields.c:274-285 | the engine takes over the type's size and limited alignment, and the struct is aligned to the largest so far |
| `BitfieldPlaces.GenericCloses` | ctlib/bitfields.c:298-307 | a zero-width field leaves an unused unit, and otherwise goes to the next multiple of the type size |
| `BitfieldPlaces.MicrosoftPlaces` | ctlib/bitfields.c:468-553 | a field of the unit's type stays in it if it fits and goes to the very next one if not; another type leaves a used unit for the first multiple of its alignment |
| `BitfieldPlaces.MicrosoftCloses` | ctlib/bitfields.c:468-553 | a zero-width field leaves the unit if it is in use |
| `BitfieldPlaces.SimplePlaces` | ctlib/bitfields.c:663-714 | a field stays in the block if it fits and goes to the next one if not |
| `BitfieldPlaces.SimpleCloses` | ctlib/bitfields.c:663-714 | a zero-width field starts the next block in any case |
| `BitfieldPlaces.RunEnds` | ctlib/bitfields.c:374-744 | a run that ends with a field ends in the field's last byte with the generic engine, and with its container with the others |
| `BitfieldPlaces.EmptyRunEnds` | ctlib/bitfields.c:374-744 | a run in which nothing takes room ends where it starts |
| `ContainerEnds.ContainersInsideExact` | ctlib/bitfields.c:252-386 | every container of the generic engine ends with its padded struct, whatever came before, if and only if the type is less than four times as large as the alignment limit |
| `ContainerEnds.TooShort` | cbc/pack.c:65-86 | `struct { int a:17; }` aligned to bytes has three bytes, from which its member cannot be read, and which grow to four when it is packed into them |
| `Layout.GetTypeInfo` | ctlib/layout.c:73-251 | size, alignment and item size of a declarator or a type, the array loop included, are those of the recursive definition |
| `Layout.LayoutCompound` | ctlib/layout.c:317-533 | the loop with its shared layouter computes the compound that the layout function gives |
| `Layout.LayoutDecl` | ctlib/layout.c:346-522 | one declaration: its declarators, its offset and its size |
| `LayoutTight.MemberTight` | ctlib/layout.c:436-508 | a plain member after end e with effective alignment a is at the multiple of a in [e, e + a); in a union it is at 0 |
| `LayoutTight.RunStarts` | ctlib/layout.c:390-410 | a run of bitfields starts where the members before it end, with nothing in use, under the compound's limit and byte order |
| `LayoutTight.CompoundPadded` | ctlib/layout.c:338-341 | any compound ends at the first multiple of its alignment after its contents, and starts with the least alignment the settings give |
| `LayoutTight.StructTight` | ctlib/layout.c:317-533 | in a laid-out struct without bitfields the members follow one another from byte 0, each at the first multiple of its effective alignment; the struct's alignment is the largest of theirs and the least one, and its size the first multiple of it |
| `LayoutTight.UnionTight` | ctlib/layout.c:455-533 | the same for unions: everything at 0, and the largest member padded |
| `LayoutTight.BasicSizes` | ctlib/layout.c:187-207 | the integer types by their names, in every spelling, have the sizes that are set |
| `LayoutTight.OtherSizes` | ctlib/layout.c:192-199 | so do the floating types, and void has one byte |
| `LayoutTight.NativeSizes` | ctlib/layout.c:73-207 | a size that is not set is the native one |
| `LayoutTight.DeclaratorsMeasured` | ctlib/layout.c:73-251 | a laid-out declarator is as large as its items |
| `LayoutLikeness.LayoutAgain` | ctlib/layout.c:317-533 | once its size has been cleared, laying out a finished compound computes the same offsets, alignment and size and keeps all else |
| `LayoutLikeness.StructAlike` | ctlib/layout.c:317-533 | compounds of the same size at the start that differ only in what a layout left in their members are laid out alike |
| `SecondLayout.SecondRun` | ctlib/layout.c:317-533 | without clearing, a second run computes the same size exactly for unions and for structs of size zero, and on a struct the same layout exactly for size zero |
| `SecondLayout.StructGrows` | ctlib/layout.c:317-533 | from whatever size it starts, a struct with anything in it ends larger |
| `SecondLayout.IntMoves` | ctlib/layout.c:436-453 | a second run on `struct { int a; }` puts a at offset 4 and makes it eight bytes long |
| `UnionLayout.UnionCoversExact` | ctlib/layout.c:317-533 | the size of a union with bitfields, and that it covers every alternative if and only if those before the last bitfield fit into what that bitfield and the later members need, rounded up |
| `UnionLayout.OverwrittenSize` | ctlib/layout.c:422-423 | `union { char x[10]; char b:1; }` has one byte and does not cover its first alternative |
| `LayoutSafety.PlainUnionCovers` | ctlib/layout.c:455-461 | a union without bitfields covers all its alternatives |
| `LayoutSafety.ItemChain` | ctlib/layout.c:317-533 | the bits of all leaves of an item, through nested compounds, arrays, typedefs and chosen alternatives of unions, follow one another inside it |
| `LayoutSafety.LeavesDisjoint` | ctlib/layout.c:317-533 | so the leaves of a laid-out type are pairwise disjoint and lie in [0, 8*size), with every engine; unions may hold bitfields as long as they cover their alternatives |
| `LayoutAlignment.StructAligned` | ctlib/layout.c:338-341 | a struct's alignment is a power of two within the limit that divides its size, and every member lies at a multiple of its effective alignment, which is at most the struct's |
| `LayoutAlignment.LeavesAligned` | ctlib/layout.c:436-508 | every leaf at every nesting depth and array index lies at a multiple of the smaller of its natural alignment and the limit |
| `LayoutDriver.UpdateType` | ctlib/ctparse.c:851-886 | laying out a type from the inside out with one shared layouter gives the laid-out type that depends on nothing but type and configuration |
| `LayoutDriver.ResetClears` | ctlib/ctparse.c:804-832 | resetting clears the size and the alignment of every compound, at any depth |
| `LayoutDriver.ResetForgets` | ctlib/ctparse.c:804-886 | whatever sizes and alignments a type has been given, once reset it is laid out as the parsed type is |
| `LayoutDriver.Reconfigured` | ctlib/ctparse.c:804-886 | a type laid out for one configuration, reset and laid out for another is what laying it out for that one alone gives |
| `LayoutOnDemand.StructList.Update` | ctlib/ctparse.c:851-886 | going through a list of structs that use one another, in any order and with nested ones laid out on demand and only once, every struct without bitfields gets the layout it has from the inside out |
| `LayoutOnDemand.StructList.LayoutNode` | ctlib/layout.c:317-533 | one entry: it is laid out, what it needs is laid out on the way, and nothing else changes |
| `LayoutOnDemand.StructList.DemandStruct` | ctlib/layout.c:155-186 | a struct whose alignment is zero is laid out before its size is taken |
| `LayoutOnDemand.WantedIs` | ctlib/layout.c:317-533 | what an entry gets is the layout of its type tree from the inside out |
| `LayoutOnDemand.OpenRunDisturbed` | ctlib/layout.c:390-432 | with bitfields the order matters: a struct laid out in an open run moves the end of the run |
| `Walker.MemberExprWalker.Walk` | cbc/member.c:1182-1355 | each call reads one token, moves on whenever it succeeds, leaves only the two states between calls, and reports termination for good after the end or an error |
| `Walker.ReadPrinted` | cbc/member.c:1182-1355 | a printed token in front of anything that may follow it is read as that token |
| `Walker.WalkPrinted` | cbc/member.c:1109-1355 | walking a printed token list yields its tokens and then the end |
| `WalkerSpaces.WalkSpaced` | cbc/member.c:1109-1355 | spaces between and inside the tokens change nothing |
| `WalkerSpaces.Dotless` | cbc/member.c:1182-1355 | a name without a dot at the start is refused, or read as if it had one |
| `MemberStrings.GetMemberString` | cbc/member.c:667-707 | the routine prints the tokens of the best match, or nothing when there is none |
| `MemberStrings.GetMemberStringRec` | cbc/member.c:412-547 | the search through a compound's members with its scratch buffers appends the tokens of the match, ranked hit over padding over no match |
| `MemberStrings.AppendMemberString` | cbc/member.c:266-347 | names, indices, typedefs and nested compounds are appended in the order of the match |
| `MemberStrings.AppendIndices` | cbc/member.c:289-310 | the loop prints the index in each dimension and leaves the offset into the element |
| `MemberRanks.UnionBest` | cbc/member.c:383-547 | of the alternatives of a union that contain the offset, the match is the first hit; if there is none, the first offset into a leaf; if there is none, the first one in padding |
| `MemberRanks.UnionFlat` | ctlib/layout.c:455-512 | all alternatives of a laid-out union start where it does, so that UnionBest speaks of it |
| `MemberRanks.StructRank` | cbc/member.c:412-547 | in structs and unions, nested in any way, a match is a hit exactly where a leaf starts, an offset into a leaf exactly in the middle of one, and padding everywhere else |
| `MemberRanks.RankExact` | cbc/member.c:266-707 | so the printed expression has a plus sign exactly where no leaf starts |
| `MemberLookup.SearchStructMember` | cbc/member.c:566-613 | finds the first member of that name, through unnamed compounds, with its offset |
| `MemberLookup.TokenStep` | cbc/member.c:811-1086 | what one token makes of the place reached so far, errors included |
| `MemberLookup.GetMember` | cbc/member.c:751-1086 | the loop over the walker follows the expression token by token |
| `MemberMeaning.FoundIffDeclared` | cbc/member.c:566-613 | the search finds exactly what is declared under a name, by itself or in an unnamed member |
| `MemberMeaning.LookupExact` | cbc/member.c:751-1086 | for every expression, however it is spaced, pointers included: the lookup gives offset n if and only if n is what the expression means in C, bounds and offsets checked when asked; otherwise it fails |
| `MemberRoundTrip.RoundTrip` | cbc/member.c:266-1086 | for every laid-out type without bitfields, and every declarator of one that is no pointer, with any dimensions indexed, and every offset below the size, looking up the printed expression gives back the offset |
| `MemberPointers.RoundTripExact` | cbc/member.c:266-1086 | with arrays of pointers included, an expression is printed and leads back if and only if the declarator is no pointer or the expression stays out of what it points to |
| `MemberPointers.PointerRoundTrip` | cbc/member.c:667-707 | the pointer half of it |
| `MemberPointers.FooFails` | cbc/member.c:692 | for `struct foo *p[3]` and offset 0, `[0].x` is printed and does not lead back |
| `MemberRoundTrip.StructLeads` | cbc/member.c:412-547 | inside any compound reached through unnamed members, the match for an offset leads to that offset from the outermost one |
| `PackBuffer.WriteChanges` | ctlib/byteorder.c:1218-1286 | writing an integer or a bitfield, growing the buffer if need be, changes no bit outside the field |
| `PackBuffer.ReadSame` | ctlib/byteorder.c:1117-1181 | reading depends on the field's bits only |
| `PackBuffer.ReadWritten` | ctlib/byteorder.c:1117-1286 | an integer in the range of the field is read back |
| `Packing.PackInfo.PackType` | cbc/pack.c:1130-1282 | the routine on the handle writes what the packing function gives for the byte order in force, and leaves the byte order as it was |
| `Packing.PackInfo.PackItems` | cbc/pack.c:1180-1224 | the loop over array elements |
| `Packing.PackInfo.PackStruct` | cbc/pack.c:758-867 | the loop over declarations; a struct's byte order tag holds for all in it |
| `Packing.PackInfo.PackInt` | cbc/pack.c:886-1003 | integers: buffer growth, undefined values, bitfields in the configured byte order |
| `Packing.PackInfo.UnpackType` | cbc/pack.c:1743-1925 | the routine on the handle reads what the unpacking function gives, and leaves the byte order as it was on every return |
| `Packing.PackInfo.UnpackStruct` | cbc/pack.c:1330-1481 | the loop over declarations; the first member of a name wins |
| `Packing.PackInfo.UnpackEnum` | cbc/pack.c:1500-1618 | the value, and that the byte order of the enum's tag stays in force exactly when the buffer is too short |
| `Packing.ShortEnum` | cbc/pack.c:1525-1528 | a tagged enum read from an empty buffer leaves its byte order in force |
| `PackingMeaning.TypeMeans` | cbc/pack.c:1330-1925 | every integer of an unpacked value, along any path through arrays, typedefs, structs, unions and unnamed members, is what its bytes say: its place and size, the byte order of the innermost tag (of the layout for bitfields), and its sign by `unsigned`, `signed` and the settings for plain characters and bitfields; it is undefined if the buffer ends before |
| `PackingWrites.TypeWritten` | cbc/pack.c:758-1282 | whatever is packed into whatever buffer, every integer that is supplied is stored at its place modulo its width, and the bits of every other one stay as they were |
| `PackingWrites.BytesWritten` | cbc/pack.c:1130-1282 | so an integer with a container of its own is written as its digits of base 256, least significant first or last as the innermost tag says |
| `PackingRoundTrip.TypeChanges` | cbc/pack.c:1130-1282 | packing changes no bit outside the item's span |
| `PackingRoundTrip.TypeReads` | cbc/pack.c:1743-1925 | unpacking reads a packed value back from any buffer that keeps the bits of its span, whatever was written next to it |
| `PackingRoundTrip.RoundTrip` | cbc/pack.c:758-1925 | for every struct type of integers, pointers, bitfields, arrays, typedefs and structs, with any engine, byte order tags and unnamed members, unpacking a packed value gives it back, and no bit outside is touched |
| `ParseInfoClone.CloneTypedefList` | ctlib/cttype.c:1025-1047 | each cloned typedef points to the type in its own cloned list |
| `ParseInfoClone.CloneNodes` | ctlib/ctparse.c:961-1044 | the first pass copies every node once and builds the pointer map and the tables |
| `ParseInfoClone.RemapNodes` | ctlib/ctparse.c:1053-1075 | the second pass replaces every pointer by its image, and fails exactly when a pointer leads out of the map |
| `ParseInfoClone.CloneParseInfo` | ctlib/ctparse.c:925-1078 | the copy shares no node with the original, has no node twice, and succeeds exactly for closed graphs; then every pointer of a copied node is the image of the original's |
| `ParseInfoClone.CopyClosed` | ctlib/ctparse.c:1053-1075 | the copy of a graph is closed |
| `ParseInfoClone.PathsMapped` | ctlib/ctparse.c:925-1078 | the copy is isomorphic: every path of pointers from the copy of a node leads to the copy of what the same path leads to in the original, through cycles too |
| `ParseInfoClone.NamesMapped` | ctlib/ctparse.c:961-1044 | looking up a name among the copy's enums, structs and typedefs gives the copy of what it means in the original |
| `ParseInfoClone.StructTableIs` | ctlib/ctparse.c:993-1005 | a table has every name in use, with the first struct of that name |

## Left out

- Layout.GetTypeInfo: the flags it collects; nested compounds are laid out before, LayoutOnDemand has the runs on demand.
- LayoutDriver.UpdateType: nested compounds first, on type trees; LayoutOnDemand has the list with its shared structs, without bitfields.
- LayoutAlignment.LeavesAligned: types without bitfields and without packing.
- MemberRoundTrip.RoundTrip: types without bitfields, with defined compounds, positive dimensions and names that are unique through unnamed members.
- MemberRanks.StructRank: types without bitfields, as for the round trip.
- MemberRanks.RankExact: the same types.
- MemberMeaning.LookupExact: the same types; which of its errors the lookup reports is in TokenStep.
- MemberStrings.GetMemberString: the lists of hits, offsets and padding it can collect on the way.
- MemberStrings.GetMemberStringRec: the same lists.
- MemberStrings.AppendMemberString: the same lists.
- MemberLookup.TokenStep: arrays of unknown length and the flag that leaves out the offset calculation.
- MemberLookup.GetMember: the flags that suppress its errors or the offset calculation, and the type flags it passes on.
- Packing.PackInfo.PackType: hooks, Format and Dimension tags and floats.
- Packing.PackInfo.PackItems: arrays of unknown length and Dimension tags.
- Packing.PackInfo.PackStruct: hooks and Format tags.
- Packing.PackInfo.PackInt: values given as strings, and floats.
- Packing.PackInfo.UnpackType: hooks, Format and Dimension tags and floats.
- Packing.PackInfo.UnpackStruct: hooks, Format tags and exceptions.
- Packing.PackInfo.UnpackEnum: gives the number; names of enumerators are not part of this model.
- PackingMeaning.TypeMeans: types in which no name comes twice in a compound.
- PackingWrites.TypeWritten: no unions, and no name twice in a compound.
- PackingWrites.BytesWritten: the same types.
- ContainerEnds.ContainersInsideExact: alignment limits that are powers of two.
- LayoutTight.StructTight: without bitfields; BitfieldPlaces has where these go.
- LayoutTight.UnionTight: without bitfields; UnionLayout has the size with them.
- PackingRoundTrip.RoundTrip: no unions and no floating point members; every named member and array element must be supplied and in range. The word width is a parameter; the library's is 64.
- ParseInfoClone.CloneNodes: the table of enumerators.
- ParseInfoClone.CloneParseInfo: copies the enumerator table, macros, the preprocessor and the error list not at all; typedef lists get their entries when the list itself is copied.
- The remainder operators `pct`, built on the divisions.
- Integer promotions: on a C type narrower than int, a shift by its width has a meaning, which the conditions on shifts do not grant.
- Overlap between the alternatives of one union: the leaves of one alternative of each union, whichever one, are looked at.
- Integers of the library's own records (sizes, offsets, indices) are unbounded: 29-bit offsets, `unsigned` overflow and `atoi` overflow are not modelled.
- The types that pointers point to: pointers are leaves, so types that contain pointers to themselves need no cycle.
- Floating-point members: their native representation is copied.
- The list of all member strings: it visits the same tree as the lookup and would add easy members.
- Perl values, warnings, debug output and reference counts: values are integers, arrays and hashes.
- The unaligned-access variants of the fetch and store macros: memory is a sequence of bytes.
- Parsing of C, file lookup, options, init strings, tags and errors.
