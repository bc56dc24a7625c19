# Verified model of protowire-cpp

This project models the exact-arithmetic, layout and scanning cores of protowire-cpp in Dafny and proves
what they promise. Code that updates things in place is modelled by classes and by methods with loops, each
proved against a specification function; what the code promises is then proved about those functions.
Expressions and recursion are modelled by functions. `dafny verify dfyconfig.toml` checks everything.

## Main results

1. **Numbers as text** (`src/pxf/bigfloat.cc`). `BigNat.Nat` is the limb class, with Knuth's Algorithm D
   (`Knuth`): the trial digit is never too small and at most one too large, so one add-back is enough.
   `FloatArith` rounds, and finds the rounded exponent without dividing; the run-time cross-check of the two
   is dead code. `BigFloatParse` reads every literal as its correctly rounded value. `BigFloatFormat` writes
   N digits with 10^(N-1) > 2^prec (`Precision.Pow2DigitsExact`, for all 2^32 precisions).
   `BigFloatRoundTrip.TextRoundTrip` is the round trip, with the exact condition under which the text is
   accepted, and `BigFloatText.TextIsCanonical` says that equal numbers, and no others, have the same text.
   `BigFloatShape.WrittenOnly` says which text: of all literals of the value the one of a given shape, and
   `BigFloatLexed.WrittenLexes` that it is one token.
2. **Numbers on the wire** (`src/pb/big.cc`). One form for each value: two Decimals, or two BigFloats of one
   precision, have the same form if and only if they are equal, and the decoder accepts every form that is
   written and returns it.
3. **SBE** (`src/sbe`). Round trip to a normal form, and the exact condition, oneofs in group entries
   included, under which every field comes back and the bytes are identical (`SbeMessages.MessageReads`,
   `SbeMessages.MessageAgain`); forward compatibility from schema to bytes
   (`SbeTemplate.SchemaExtensionExtends`, `SbeMessages.ForwardReads`); along every path of composites and
   entries the view reads the windows the decoder decodes (`SbePaths.ViewAgreesOnPaths`), and on those alone
   it depends whether a buffer the view accepts is decoded (`SbeWindows.DecodesByWindows`). Which template a
   schema has and which buffers pass is said without the code that builds and checks them
   (`SbeSchema.TemplateIs`, `SbeGroups.PassesIs`).
4. **Keyed lists** (`src/pxf/keyed.cc`). Rewriting preserves what the decoder builds, typed Any blocks
   included, under an exact condition on the document (`KeyedMeaning.CanonPreservesMeaning`). Its results are
   exactly the documents of a normal form that is defined by itself, which it leaves alone
   (`KeyedNormal.CanonTwice`).
5. **Struct codec** (`include/protowire/pb.h`). Round trip at equal depth limits for every schema, recursive
   ones included, with any number of unknown fields at every record boundary of every level, submessages and
   map entries included (`PbRoundTrip.StructReads`, `PbAlike.RoundTripWithUnknown`). Read over a struct that
   has values it is merged into them, so two encodings in a row are the merge of the two
   (`PbMerge.ConcatMerges`). What is left out and what is refused is exact (`PbWritten.StructOmitted`,
   `PbWritten.StructFits`).
6. **Streams**. Frames cut anywhere (`Framing.CutDelivers`), braces in pieces
   (`BraceMatching.PiecesAreWhole`), tokens and dataset rows in pieces (`TokensTaken.TakenStable`,
   `RowScan.ReadsAreWhole`, with the exact condition in `RowScan.ReadsDecide`). A row that has
   arrived is not waited for (`RowAtOnce.RowNotHeldUp`). Which brace and which row is found is said of the text
   itself (`BraceText.ClosesThere`, `RowText.RowsAre`).
7. **Text inverses**. Quoting and lexing (`StringTokens.QuotedIsOneToken`, `StringForms.WrittenShortest`), any
   text of lexemes and its tokens (`Lexemes.LinesLex`), days and dates for every integer day (`Calendar`,
   `CalendarDays.DaysGoOn`), timestamps (`Rfc3339.TimestampReadsBack`, `TimestampText.StampReads`).

## Where the code does not do what one would expect

- In an SBE group entry, a oneof loses every member but the last: all of them are written, and the decoder
  sets them in turn, each clearing those before it. `SbeExamples.OneofLosesValue` is an example, in which the
  view still reads what the decoder lost, and `SbeMessages.MessageReads` and `SbeMessages.MessageAgain` have
  the exact conditions.
- A list of a keyed field is rewritten whatever its elements are, but under a name the decoder does not take
  the type of an Any. A list of typed Any blocks that has keys is accepted as it is and refused once it is
  rewritten. `KeyedAny.TypedKeyRefused` is an example, `KeyedMeaning.CanonPreservesMeaning` the exact
  condition, and `KeyedAny.AllKept` the schemas that are safe.
- A row scan that reads an open stream refuses a string when a read ends inside an eight-digit `\U` escape
  after its fourth digit: the lexer needs all eight, and `Complete` takes an error token once four bytes
  follow it, although its comment says that is enough. `TokensTaken.ErrorTakenEarly` is an example and
  `TokensTaken.ErrorStays` the exact condition: the digits so far, followed by zeros, are a rune. For the scan
  it matters only inside a row, as `RowScan.EarlyIsWhole` says exactly; between rows such bytes are no row
  either way.
- The lexer takes some numbers that are none: a second fraction, or an exponent without digits
  (`NumberTokens.LooseNumbers`; `NumberTokens.NumberTokenLooks` has all it takes).
- `View::Bool` looks at the first byte of its field only, the decoder at all of them.
  `SbeExamples.BoolDisagrees` is an example and `SbeView.BoolAgrees` the exact condition.
- `Complete` is not monotone: a closed string at the end of the buffer is taken, but with one more byte that
  is a dot it has to wait. A token that was taken stays the token of the whole stream nevertheless.

## How things are modelled

- Bytes are integers below 256; limbs, and the source's 32- and 64-bit integers where a result could leave
  their range, are subset types, so that an overflow would not verify.
- The library parser that a literal must also pass (`GoParse`, `ScanLikeGo`) is a parameter, a gate that may
  refuse a literal. The table of printable runes, timestamp and duration syntax inside the lexer, base64,
  dedenting, the reading of scalars under a keyed field and the resolver of type URLs are parameters too.
- A protobuf message is a tree of values, a schema a list of declarations; floats are bit patterns.
- Errors are tags or `None`; wording, lines and columns are not modelled.

## Model

| member | source | states |
|---|---|---|
| `BigNat.Nat.constructor` | src/pxf/bigfloat.cc:33-35 | a number of one limb, or none for zero |
| `BigNat.Nat.FromBytes` | src/pxf/bigfloat.cc:37-45 | the number the big-endian bytes denote |
| `BigNat.BytesToLimbs` | src/pb/big.cc:265-272 | the limbs denote what the big-endian bytes denote, whatever their count; also the loop of FromBytes |
| `BigNat.Nat.ToBytes` | src/pxf/bigfloat.cc:47-53 | exactly (bit length + 7) / 8 bytes that denote the number, the first not zero |
| `BigNat.Nat.BitLen` | src/pxf/bigfloat.cc:58-63 | the bit length of the value |
| `BigNat.Nat.Bit` | src/pxf/bigfloat.cc:65-68 | bit i of the value, for every i |
| `BigNat.Nat.AnyBitBelow` | src/pxf/bigfloat.cc:71-77 | true exactly when the value is not a multiple of 2^i |
| `BigNat.Nat.MulSmall` | src/pxf/bigfloat.cc:79-88 | the value times m, with every 64-bit intermediate in range |
| `BigNat.Nat.AddSmall` | src/pxf/bigfloat.cc:90-98 | the value plus a |
| `BigNat.Nat.Sub` | src/pxf/bigfloat.cc:101-111 | a - b where b <= a |
| `BigNat.Nat.DivSmall` | src/pxf/bigfloat.cc:114-123 | quotient in place and remainder below d |
| `BigNat.Nat.Shl` | src/pxf/bigfloat.cc:125-138 | the value times 2^bits |
| `BigNat.Nat.Shr` | src/pxf/bigfloat.cc:140-153 | the value divided by 2^bits, rounded down |
| `BigNat.Nat.Cmp` | src/pxf/bigfloat.cc:155-161 | the order of the two values |
| `BigNat.Nat.Mul` | src/pxf/bigfloat.cc:163-178 | the product of the values |
| `BigNat.Nat.Pow10` | src/pxf/bigfloat.cc:180-185 | 10^n |
| `BigNat.Nat.Trim` | src/pxf/bigfloat.cc:263-265 | drops the zero limbs on top and keeps the value |
| `Knuth.TrialDigit` | src/pxf/bigfloat.cc:208-215 | the corrected trial digit is below 2^32 and every 64-bit intermediate fits; no larger digit passes the two-limb test |
| `Knuth.TrialNotBelow` | src/pxf/bigfloat.cc:208-215 | the trial digit is never below the true digit |
| `Knuth.TrialOneAbove` | src/pxf/bigfloat.cc:208-215 | the trial digit is at most one above the true digit |
| `Knuth.MulSub` | src/pxf/bigfloat.cc:216-227 | subtracts qhat * v from the window modulo 2^(32 n), and says whether it went below zero |
| `Knuth.AddBack` | src/pxf/bigfloat.cc:228-238 | one add-back brings a window that went below zero back exactly |
| `Knuth.Digit` | src/pxf/bigfloat.cc:207-239 | one digit of the quotient is exact, and what is left of the window is below v, with at most one add-back |
| `Knuth.Divide` | src/pxf/bigfloat.cc:203-240 | u = q v + r with r < v, for every normalized v |
| `BigNat.Nat.DivLong` | src/pxf/bigfloat.cc:195-243 | the same for divisors of two limbs or more, shifted into normal form and back |
| `BigNat.Nat.DivMod` | src/pxf/bigfloat.cc:188-244 | a = q d + r with r < d for every a and every d > 0 |
| `BigNat.Nat.ToDecimal` | src/pxf/bigfloat.cc:246-260 | decimal text that denotes the value, with no leading zero |
| `Rounding.RoundsToNearest` | src/pxf/bigfloat.cc:274-284 | the p-bit float that the rounding rule gives is nearest among all p-bit floats of any exponent, and a tie goes to the even one |
| `Rounding.RoundsToUnique` | src/pxf/bigfloat.cc:274-284 | the rule gives one mantissa and one exponent |
| `Rounding.RoundsToBits` | src/pxf/bigfloat.cc:274-284 | the mantissa has exactly p bits, the carry into a new top bit included |
| `Rounding.ExactRounds` | src/pxf/bigfloat.cc:274-284 | a number that has p bits rounds to itself |
| `FloatArith.StickyRounds` | src/pxf/bigfloat.cc:269-284 | rounding the quotient with the remainder as a sticky bit is rounding the exact ratio half to even |
| `FloatArith.RoundToBits` | src/pxf/bigfloat.cc:274-284 | keeps the top bits, half to even with the sticky bit, and returns how many were dropped |
| `FloatArith.RoundQuotient` | src/pxf/bigfloat.cc:752-766 | dividing with two spare bits and then rounding gives the correctly rounded float of num / den in exactly prec bits |
| `FloatArith.ExactExponentAndCarry` | src/pxf/bigfloat.cc:319-332 | the binary exponent of num / den, and whether rounding carries into the next power of two, without dividing |
| `FloatArith.RoundedBinaryExponent` | src/pxf/bigfloat.cc:334-337 | the division-free exponent is the exponent of the correctly rounded float |
| `Precision.Pow2DigitsExact` | include/protowire/detail/bigprec.h:20-25 | for every 32-bit p the fixed-point product is right: d with 10^(d-1) <= 2^p < 10^d |
| `Literals.SplitText` | src/pxf/bigfloat.cc:569-615 | taking a literal apart inverts writing its parts |
| `LiteralScan.SplitLiteral` | src/pxf/bigfloat.cc:569-615 | accepts exactly the literals of the grammar, and its digits and exponent denote what the parts denote; no 64-bit sum overflows up to 2^62 characters |
| `LiteralScan.ScanExponent` | src/pxf/bigfloat.cc:588-607 | the exponent, saturated where it is beyond any that matters, or refused |
| `LiteralScan.SaturatingIs` | src/pxf/bigfloat.cc:593-603 | the saturating exponent is exact or both it and the true one are past the saturation point |
| `LiteralScan.StripZeros` | src/pxf/bigfloat.cc:608-613 | the digits without zeros at either end times 10^zeros are the same number; none are left exactly for zero |
| `BigFloatParse.ParsePrecision` | src/pxf/bigfloat.cc:548-558 | accepts exactly the digit strings of a 32-bit precision above zero, and returns it |
| `BigFloatParse.CountLiteralDigits` | src/pxf/bigfloat.cc:625-635 | the significant digits of the literal, where an int can count them |
| `BigFloatParse.RoundLiteral` | src/pxf/bigfloat.cc:732-776 | accepts exactly when the rounded value is within the exponent bound and the wire, and then gives its correct rounding in exactly prec bits; the cross-check of the two exponents never fails |
| `BigFloatParse.ParseBigFloatLiteral` | src/pxf/bigfloat.cc:637-777 | accepts exactly the literals in the grammar, within the limits and let through by the gate; gives sign, precision and the correctly rounded value; the internal error is unreachable |
| `BigFloatFormat.RoundedIs` | src/pxf/bigfloat.cc:781-788 | dropping the excess bits with RoundToBits rounds the stored value correctly |
| `BigFloatFormat.RoundedMantissa` | src/pxf/bigfloat.cc:784-788 | the mantissa and exponent of the stored value rounded to its precision, zero exactly for zero; at precision zero the one unit or none that rounding leaves |
| `BigFloatFormat.CheckBigFloatLimits` | src/pxf/bigfloat.cc:792-815 | returns the first limit that the rounded value fails, or none, at every precision |
| `DecimalDigits.ScaleToDigits` | src/pxf/bigfloat.cc:851-871 | from any starting estimate the search ends with 10^x <= value < 10^(x+1) and a quotient of exactly N digits with its exact remainder |
| `DecimalDigits.DigitsDetermine` | src/pxf/bigfloat.cc:851-879 | N digits with 10^(N-1) > 2^p determine the p-bit float: the N-digit rounding rounds back to it |
| `BigFloatFormat.RoundLastDigit` | src/pxf/bigfloat.cc:872-873 | rounds the quotient half to even on its remainder |
| `BigFloatFormat.TrimmedText` | src/pxf/bigfloat.cc:874-879 | the digits without trailing zeros, with 99...9 rolling over to the next power of ten |
| `BigFloatFormat.SignificantDigits` | src/pxf/bigfloat.cc:851-879 | the N-digit half-even rounding of the value, and its decimal exponent |
| `BigFloatFormat.WriteLayout` | src/pxf/bigfloat.cc:881-908 | the text of the layout chosen for the exponent, plain or scientific |
| `BigFloatLayout.LayoutMagnitude` | src/pxf/bigfloat.cc:881-908 | every layout denotes the digits at their exponent |
| `BigFloatLayout.LayoutCount` | src/pxf/bigfloat.cc:881-908 | no layout has more significant digits than were allowed |
| `BigFloatLayout.LayoutLength` | src/pxf/bigfloat.cc:881-908 | no layout is longer than its digits and twenty characters |
| `BigFloatLayout.TextHasNoSuffix` | src/pxf/bigfloat.cc:881-908 | a layout holds no p, so the precision suffix is found where it was written |
| `BigFloatFormat.LayoutWrites` | src/pxf/bigfloat.cc:872-908 | the digits laid out are a literal whose value is the N-digit rounding of the rounded value |
| `BigFloatFormat.FormatBigFloatLiteral` | src/pxf/bigfloat.cc:817-910 | writes exactly when no limit fails, otherwise names the first; the text is the N digits of the rounded value in the layout of their exponent, and the precision |
| `BigFloatShape.LayoutShaped` | src/pxf/bigfloat.cc:881-908 | a layout has no exponent exactly when its value is at least 10^-4 and below 10^N; otherwise one digit that is not zero stands before the point and the exponent has a sign and two digits or more; no zero ends a fraction |
| `BigFloatShape.ShapeUnique` | src/pxf/bigfloat.cc:881-908 | a value has one literal of that shape |
| `BigFloatShape.WrittenShaped` | src/pxf/bigfloat.cc:817-910 | what is written, taken apart as a literal, has that shape |
| `BigFloatShape.WrittenOnly` | src/pxf/bigfloat.cc:817-910 | and is the only literal of that shape and value |
| `BigFloatLimits.FitsIs` | src/pxf/bigfloat.cc:732-776 | the value of a literal fits exactly when, rounded, it lies between the two powers of two of the bound and its exponent has 32 bits |
| `BigFloatLimits.LimitsAre` | src/pxf/bigfloat.cc:792-815 | no limit is failed exactly when the value, stored and rounded, lies between those powers and its precision has no more digits than are allowed |
| `BigFloatLimits.CountIs` | src/pxf/bigfloat.cc:625-635 | the digits that are counted are those of the number a literal's digits make |
| `BigFloatLimits.FewerBits` | src/pxf/bigfloat.cc:719-733 | rounding to fewer bits gives the same binary exponent or the next |
| `BigFloatLimits.GateBarsNothing` | src/pxf/bigfloat.cc:719-733 | so a gate that rounds correctly at the reduced precision bars no literal whose value fits |
| `BigFloatText.SpellsUnique` | src/pxf/bigfloat.cc:851-879 | a value has one string of N digits and one exponent to go with it |
| `BigFloatText.TextIsCanonical` | src/pxf/bigfloat.cc:817-910 | two BigFloats are written alike, under whatever limits, exactly when they are equal once rounded to their precision |
| `BigFloatRoundTrip.BigFloatFromString` | src/pxf/wellknown.cc:329-337 | splits at the first p and parses, or refuses an empty precision |
| `BigFloatRoundTrip.WrittenRounds` | src/pxf/bigfloat.cc:817-910 | what was written rounds to a float exactly when the stored value does |
| `BigFloatRoundTrip.WrittenAccepts` | src/pxf/bigfloat.cc:637-777 | the parser accepts what was written exactly when the gate lets it through and the wire can carry its exponent |
| `BigFloatRoundTrip.WrittenReads` | src/pxf/bigfloat.cc:734-776 | what is read back has the sign, the precision and the value rounded to it, in exactly prec bits |
| `BigFloatRoundTrip.TextRoundTrip` | src/pxf/bigfloat.cc:817-910 | for every BigFloat and limits: whatever is written and accepted reads back as the same sign, precision and rounded value |
| `BigFloatRoundTrip.DefaultLimitsFitWire` | src/pxf/bigfloat.cc:792-815 | within the default limits the exponent always fits the 32 bits of the wire |
| `Wire.AppendVarint` | include/protowire/detail/wire.h:32-38 | appends the base-128 groups of v |
| `Wire.ConsumeVarint` | include/protowire/detail/wire.h:71-83 | at most ten bytes and 64 bits: the value and the bytes taken, or a refusal |
| `Wire.VarintReads` | include/protowire/detail/wire.h:71-83 | a varint that was written is read back, whatever follows |
| `WireFormat.VarintForm` | include/protowire/detail/wire.h:32-38 | a varint is the number in base 128, low group first, with no group too many |
| `WireFormat.VarintMeans` | include/protowire/detail/wire.h:71-83 | any run of continued bytes is read as its number in base 128, and refused exactly past ten bytes or 64 bits |
| `WireFormat.Unfinished` | include/protowire/detail/wire.h:71-83 | bytes that never end a varint are refused |
| `Wire.TagReads` | include/protowire/detail/wire.h:85-94 | a tag with a valid field number is read back, whatever follows |
| `Wire.FixedReads` | include/protowire/detail/wire.h:96-111 | fixed-width values are read back |
| `WireFormat.FixedForm` | include/protowire/detail/wire.h:44-55 | a fixed-width value is the number in base 256, low byte first |
| `WireFormat.FixedMeans` | include/protowire/detail/wire.h:96-111 | and is read as that number |
| `Wire.BytesRead` | include/protowire/detail/wire.h:115-122 | length-prefixed bytes are read back |
| `Wire.ConsumeFieldValue` | include/protowire/detail/wire.h:133-177 | the size of a field of any wire type, groups nested to the limit included, without recursion |
| `WireFields.ReadFieldsLoop` | src/pb/big.cc:456-476 | the loop over a message is the fold of its records |
| `WireFields.FieldReads` | src/pb/big.cc:456-476 | a record the handler takes leaves the rest of the message to be read |
| `Wire.SignExtendReads` | src/pb/big.cc:345-378 | an int32 written sign-extended is read back from its low 32 bits |
| `ByteMagnitude.TrimmedValue` | src/pb/big.cc:78-80 | dropping leading zero bytes keeps the value |
| `ByteMagnitude.MinimalUnique` | src/pb/big.cc:78-80 | a value has one magnitude without leading zeros |
| `ByteMagnitude.BitLen` | src/pb/big.cc:83-88 | the bit length of the magnitude |
| `ByteMagnitude.AddU8` | src/pb/big.cc:40-51 | the magnitude plus v, with the carry into a new byte |
| `ByteMagnitude.ShiftRightRounded` | src/pb/big.cc:92-109 | drops n bits, half to even, in place and byte by byte |
| `ByteMagnitude.ShiftLeft` | src/pb/big.cc:111-122 | the magnitude times 2^n, byte by byte |
| `DecimalWire.FromLimbs` | src/pb/big.cc:274-281 | bytes without leading zeros that denote the limbs |
| `DecimalWire.DivideOut` | src/pb/big.cc:310-325 | divides out 10^step as long as it can, and keeps the value |
| `DecimalWire.Reduce` | src/pb/big.cc:310-325 | nine digits at a time and then one: the same value at the smallest scale >= 0 that is exact, no leading zeros |
| `DecimalWire.SmallestScaleUnique` | src/pb/big.cc:308-325 | a value has one smallest scale and one unscaled number there |
| `DecimalWire.MarshalDecimalMsg` | src/pb/big.cc:345-378 | refuses exactly a reduced scale past the limit; otherwise writes the canonical form |
| `DecimalWire.DecimalFormCanonical` | src/pb/big.cc:345-378 | the form keeps the value, and two Decimals have one form exactly when their values are equal |
| `DecimalWire.UnmarshalDecimalMsg` | src/pb/big.cc:512-558 | the loop decodes as the fold over records, within the limits |
| `DecimalWire.DecimalAccepted` | src/pb/big.cc:512-558 | a message, canonical or not, is accepted exactly with a scale within the bound, as its value without leading zeros or a minus zero |
| `DecimalWire.DecimalReadsBack` | src/pb/big.cc:512-558 | a canonical form is decoded unchanged |
| `DecimalWire.DecimalRoundTrip` | src/pb/big.cc:345-378 | every Decimal that is written is accepted at the default limits and denotes the same value |
| `BigFloatWire.Narrow` | src/pb/big.cc:383-451 | the mantissa rounded to prec bits, and unchanged where it already fits |
| `BigFloatWire.WidenMantissa` | src/pb/big.cc:383-451 | the rounded value in exactly prec bits, refused exactly where its exponent is out of bounds |
| `BigFloatWire.MarshalBigFloatMsg` | src/pb/big.cc:383-451 | refuses exactly what is outside the default limits; otherwise writes the canonical form |
| `BigFloatWire.FormBits` | src/pb/big.cc:383-451 | the form of a non-zero value has a mantissa of exactly prec bits |
| `BigFloatWire.BigFloatFormCanonical` | src/pb/big.cc:383-451 | two BigFloats have one form exactly when they are equal once rounded to their precision |
| `BigFloatWire.UnmarshalBigFloatMsg` | src/pb/big.cc:560-655 | the loop and checks decode as the specification says, under any limits |
| `BigFloatWire.AcceptBigFloat` | src/pb/big.cc:606-655 | the limits, rounding and normal form applied to what the records held |
| `BigFloatAccepted.AcceptedIs` | src/pb/big.cc:606-655 | a message is accepted exactly when its precision is zero, or has no more digits than are allowed and its value is within the exponent bound and, rounded, below the largest exponent; as its value correctly rounded to its precision |
| `BigFloatWire.AcceptedSameForm` | src/pb/big.cc:560-655 | what the decoder accepts has the same canonical form as what was sent |
| `BigFloatWire.BigFloatRoundTrip` | src/pb/big.cc:560-655 | everything the marshaller writes is accepted at the default limits and decoded unchanged |
| `WireVectors.BigFloatsWritten` | test/pb_test.cc:690-723 | the bytes of BigFloats: a mantissa of 64 bits with a negative exponent, zero with and without a precision, and a small one |
| `WireVectors.DecimalsWritten` | test/pb_test.cc:750-770 | the bytes of Decimals, a zero scale left out |
| `Utf8.IsValidUTF8` | include/protowire/detail/utf8.h:14-55 | accepts exactly well-formed UTF-8, section 4 of RFC 3629 |
| `Utf8Runes.EncodedDecodes` | src/pxf/lexer.cc:50-66 | a rune is decoded from its encoding, whatever follows |
| `Utf8Runes.ValidIsEncoded` | include/protowire/detail/utf8.h:14-55 | a byte string is well-formed exactly when it is the encoding of some runes |
| `Utf8.CutValid` | src/sbe/marshal.cc:117-130 | cutting valid text before a byte that is not a continuation keeps it valid |
| `SbeTemplate.BuildCompositeFields` | src/sbe/template.cc:127-170 | the fields of a composite at running offsets, or a refusal |
| `SbeTemplate.BuildField` | src/sbe/template.cc:133-168 | one scalar or composite field at its offset |
| `SbeTemplate.BuildGroupTemplate` | src/sbe/template.cc:172-217 | a group and its block length, or a refusal |
| `SbeTemplate.BuildTemplate` | src/sbe/template.cc:221-288 | root fields, groups and block length, or a refusal |
| `SbeTemplate.CompositeLaidOut` | src/sbe/template.cc:127-170 | the fields of a composite lie one after another without gaps and end within 65535 |
| `SbeTemplate.TemplateSound` | src/sbe/template.cc:221-288 | so do those of the root block and of every group, and every id fits 16 bits |
| `SbeSchema.ScalarBuilt` | src/sbe/template.cc:57-123 | a field gets the annotated primitive, and else one unsigned byte for a bool or an enum and for a number the primitive of its own range and size |
| `SbeSchema.FieldBuilt` | src/sbe/template.cc:133-168 | a field is built exactly as its declaration asks, at its offset |
| `SbeSchema.CompositeBuilt` | src/sbe/template.cc:127-170 | so is a composite |
| `SbeSchema.GroupBuilt` | src/sbe/template.cc:172-217 | so is a group |
| `SbeSchema.PlacedAt` | src/sbe/template.cc:127-170 | a field's offset is the sum of the sizes before it |
| `SbeSchema.TemplateIs` | src/sbe/template.cc:221-288 | a template is built exactly when it is the one the declarations ask for: every primitive, size, offset, group, id and block length |
| `SbeTemplate.SchemaExtensionExtends` | src/sbe/template.cc:221-288 | appending root fields, groups or group fields to a schema that compiles leaves the old template a prefix of the new |
| `SbeFields.IntFitsIs` | src/sbe/encoding_range.h:76-107 | the intersected range test passes exactly the values the encoding can hold |
| `SbeFields.IntReads` | src/sbe/marshal.cc:37-115 | an integer that passes is decoded as itself for every pair of type and encoding |
| `SbeFields.WordIs` | src/sbe/unmarshal.cc:56-149 | any word on the wire is read as its number, in two's complement where the primitive is signed, and refused exactly when the field's type cannot hold it; a bool is whether it is zero |
| `SbeFields.CutLength` | src/sbe/marshal.cc:122-130 | how much of a string fits, backing off a split character |
| `SbeFields.CutWhole` | src/sbe/marshal.cc:122-130 | the cut is valid UTF-8, and the longest prefix that fits and is |
| `SbeFields.BytesKept` | src/sbe/marshal.cc:132-142 | a bytes field holds the first bytes of the value, and zeros after its end |
| `SbeFields.CharsRead` | src/sbe/marshal.cc:132-142 | a string is read back cut and without trailing NULs, bytes cut or padded |
| `SbeFields.CharsAgain` | src/sbe/marshal.cc:132-142 | writing what was read back gives the same bytes |
| `SbeBlocks.FieldReads` | src/sbe/unmarshal.cc:56-149 | a field of any kind, composites nested to any depth, is decoded in normal form |
| `SbeBlocks.BlockReads` | src/sbe/unmarshal.cc:151-165 | so is a block of fields, each member of a oneof clearing those before it |
| `SbeBlocks.FieldAgain` | src/sbe/marshal.cc:149-173 | encoding a normal form gives identical bytes, for every field |
| `SbeBlocks.BlankBytes` | src/sbe/marshal.cc:149-173 | exactly the blank values are written as the default is |
| `SbeBlocks.BlockAgain` | src/sbe/marshal.cc:157-173 | a block in normal form encodes to identical bytes exactly when every field that was cleared was blank |
| `SbeBlocks.BlockGivenBack` | src/sbe/unmarshal.cc:151-165 | a block is given back field by field exactly when every field that was cleared has the default for its normal form |
| `SbeBlocks.BlockPrefix` | src/sbe/unmarshal.cc:151-165 | the block of a longer template starts with the block of a shorter one |
| `SbeMessages.EntriesRead` | src/sbe/unmarshal.cc:247-259 | entries written under a larger group are decoded under a smaller one as their projection |
| `SbeMessages.GroupsRead` | src/sbe/codec.cc:97-128 | the groups of a larger template pass validation under a smaller one and are decoded as their projection |
| `SbeMessages.MessageReads` | src/sbe/unmarshal.cc:203-261 | what Marshal writes is decoded as the message in normal form; as every field of it, exactly when in no group entry a oneof member that a later one clears is missed |
| `SbeMessages.MessageAgain` | src/sbe/marshal.cc:177-214 | encoding that normal form gives identical bytes exactly when every member so cleared was blank |
| `SbeMessages.OneMemberGivenBack` | src/sbe/template.cc:172-217 | where no oneof has two fields in an entry, nothing is cleared |
| `SbeExamples.OneofLosesValue` | src/sbe/unmarshal.cc:56-165 | an entry with a set to 5 and b after it in one oneof: decoded, a is gone, and the message encodes to other bytes |
| `SbeExamples.OneofViewReads` | src/sbe/view.cc:60-75 | through the view of that buffer a is still 5 |
| `SbeExamples.OneofLaidOut` | src/sbe/marshal.cc:177-214 | its bytes: the message header, the group header and the entry, little-endian |
| `SbeMessages.ForwardReads` | src/sbe/unmarshal.cc:203-261 | bytes written under a template that extends another are decoded under the other as exactly the projection of the message, in normal form; with every field exactly under the same condition |
| `SbeCodec.WriteScalar` | src/sbe/marshal.cc:37-115 | writes exactly the values that fit, at their offset and nowhere else |
| `SbeCodec.WriteFixedString` | src/sbe/marshal.cc:132-142 | writes the cut text and NUL padding at its offset and nowhere else |
| `SbeCodec.WriteFields` | src/sbe/marshal.cc:157-173 | fails exactly where a value cannot be written; otherwise the buffer holds the block at its base and is unchanged elsewhere |
| `SbeCodec.WriteGroup` | src/sbe/marshal.cc:191-212 | fails exactly on too many entries or a value that cannot be written; otherwise appends header and entries |
| `SbeCodec.Marshal` | src/sbe/marshal.cc:177-214 | fails exactly on a message that cannot be written; otherwise the bytes are those of the message |
| `SbeCodec.DecodeOneField` | src/sbe/unmarshal.cc:56-149 | one field from its window |
| `SbeCodec.DecodeFields` | src/sbe/unmarshal.cc:151-165 | the loop over a block decodes every field from its own window, and setting one member of a oneof clears the others |
| `SbeCodec.ValidateGroups` | src/sbe/codec.cc:97-128 | passes exactly when every group header is there, its block is large enough, its count within the limit and its entries inside the data |
| `SbeGroups.GroupsValidIs` | src/sbe/codec.cc:97-128 | bytes pass exactly when they are, for each group of the template, a header and as many entries of its size as it counts, and then anything |
| `SbeGroups.PassesIs` | src/sbe/codec.cc:130-162 | a buffer passes exactly when it is the sizes and ids of the header, a root block no shorter than the template's, the groups, and then anything |
| `SbeGroups.DecodedPasses` | src/sbe/unmarshal.cc:203-246 | whatever is decoded has passed |
| `SbeCodec.DecodeGroupEntries` | src/sbe/unmarshal.cc:252-258 | the entries of a group, each from its own block |
| `SbeCodec.DecodeGroupsFrom` | src/sbe/unmarshal.cc:247-259 | every group in turn, from headers already validated |
| `SbeCodec.UnmarshalInto` | src/sbe/unmarshal.cc:203-261 | the loop over buffer positions decodes the message the specification decodes, and refuses what it refuses |
| `SbeView.NewView` | src/sbe/codec.cc:130-162 | accepts exactly the buffers whose header, block and groups are valid for the template they name; every access of the view stays inside the buffer |
| `SbeView.FindField` | src/sbe/view.cc:29-35 | the first field of that name, or none |
| `SbeView.Bool` | src/sbe/view.cc:37-41 | the first byte of the field is not zero |
| `SbeView.Int` | src/sbe/view.cc:43-58 | the signed number in the field's window, 0 for an unknown name |
| `SbeView.Uint` | src/sbe/view.cc:60-75 | the unsigned number in the field's window, 0 for an unknown name |
| `SbeView.String` | src/sbe/view.cc:96-103 | a window inside the buffer that holds the field without trailing NULs |
| `SbeView.Bytes` | src/sbe/view.cc:105-109 | a window inside the buffer that is the field |
| `SbeView.Composite` | src/sbe/view.cc:129-135 | a view of the composite's own window, every access inside the buffer |
| `SbeView.Group` | src/sbe/view.cc:111-127 | walking the headers again finds the group the decoder found |
| `SbeView.Entry` | src/sbe/view.cc:137-145 | the i-th block of the group, or an empty view past the count |
| `SbeView.ViewReadsField` | src/sbe/unmarshal.cc:151-165 | the window the view reads under a name is the window the decoder decodes, and then keeps or clears |
| `SbeView.IntAgrees` | src/sbe/view.cc:43-75 | Int and Uint give the number the decoder gives, for every encoding |
| `SbeView.BoolAgrees` | src/sbe/view.cc:37-41 | Bool gives what the decoder gives exactly when it is not the case that the first byte is zero and a later one is not |
| `SbeExamples.BoolDisagrees` | src/sbe/view.cc:37-41 | a ten-byte buffer that NewView and UnmarshalInto accept: its bool, 00 01 as uint16, the decoder reads as true and the view as false |
| `SbeView.EntryAgrees` | src/sbe/view.cc:137-145 | entry i is decoded from the window Entry computes |
| `SbeView.GroupAgrees` | src/sbe/view.cc:111-127 | the group's window decodes to the decoder's group |
| `SbeView.ViewAgreesWithDecoder` | src/sbe/unmarshal.cc:203-261 | for every buffer the decoder accepts, every root field and every entry of every group is decoded from the window the view gives, all inside the buffer |
| `SbePaths.ViewAgreesOnPaths` | src/sbe/view.cc:111-145 | the same along any path of composites and entries, from the root down: the path leads somewhere through the view exactly when it does in the decoded message, and every field there is decoded from the view's window |
| `SbePaths.AccessorsAgree` | src/sbe/view.cc:43-109 | at every such place what Int, Uint, Float, String and Bytes make of the view's bytes is the value the decoder gave, where no oneof cleared it |
| `SbePaths.ClearedAgrees` | src/sbe/view.cc:29-35 | with clearing counted in, the view's bytes decode to the field's value exactly when the field was not cleared or they decode to its default |
| `SbeWindows.BlockDecodes` | src/sbe/unmarshal.cc:151-165 | a block decodes exactly when every field decodes from its own window |
| `SbeWindows.EntriesDecode` | src/sbe/unmarshal.cc:252-258 | the entries of a group decode exactly when every entry decodes from its own window |
| `SbeWindows.GroupsDecode` | src/sbe/unmarshal.cc:247-259 | the groups decode exactly when every entry does in the windows the view walks to |
| `SbeWindows.DecodesByWindows` | src/sbe/codec.cc:130-162 | a buffer the view accepts is decoded exactly when every field and every entry decodes from the view's window of it |
| `KeyedCanon.IsIdentifierSafeEntryName` | src/pxf/keyed.cc:475-484 | exactly the names that can be written without quotes |
| `KeyedCanon.DropKeyAssignments` | src/pxf/keyed.cc:40-66 | drops the assignments of the key to the entry's own name and keeps the rest in order |
| `KeyedCanon.ExplicitKeyOf` | src/pxf/keyed.cc:491-508 | the one unquoted string key that a body assigns; none where there is none, or a second assignment |
| `KeyedCanon.CollectKeys` | src/pxf/keyed.cc:109-154 | whether every element is a block with an explicit key, not empty and not seen before; and the keys |
| `KeyedCanon.CanonEntries` | src/pxf/keyed.cc:205-226 | the loop rewrites the entries of a body as the specification does |
| `KeyedCanon.RewriteEntry` | src/pxf/keyed.cc:205-226 | one entry by its field |
| `KeyedCanon.CanonAssignment` | src/pxf/keyed.cc:156-203 | an assignment by the kind of its field and value |
| `KeyedCanon.CanonMapEntries` | src/pxf/keyed.cc:156-203 | the bodies of map entries |
| `KeyedCanon.CanonListElements` | src/pxf/keyed.cc:156-203 | the bodies of list elements |
| `KeyedCanon.CanonKeyedEntries` | src/pxf/keyed.cc:78-103 | a keyed block entry by entry |
| `KeyedCanon.CanonNamed` | src/pxf/keyed.cc:78-103 | one named entry: unquoted where it can be, its key dropped, its body rewritten |
| `KeyedCanon.CanonAnonymousKeyed` | src/pxf/keyed.cc:109-154 | converts exactly an eligible list; another keeps its form |
| `KeyedMeaning.DropNamed` | src/pxf/decode_fast.cc:1367-1439 | under its own name, an element decodes alike with and without the key assignments that repeat the name |
| `KeyedMeaning.DropAnonymous` | src/pxf/decode_fast.cc:1294-1357 | an anonymous element with an explicit key decodes like the named one without it |
| `KeyedMeaning.AnyUnchanged` | src/pxf/keyed.cc:205-226 | the body of an Any, typed or not, is not rewritten |
| `KeyedMeaning.StepPreserved` | src/pxf/decode_fast.cc:849-1015 | a rewritten entry decodes as the entry did, or is refused, exactly as the entry is kept or not |
| `KeyedMeaning.RunPreserved` | src/pxf/decode_fast.cc:849-1015 | so does a rewritten body, in any state and at any depth |
| `KeyedMeaning.MessagePreserved` | src/pxf/decode_fast.cc:1142-1158 | and that of a message or of an Any that names its type |
| `KeyedMeaning.NamedPreserved` | src/pxf/decode_fast.cc:1294-1439 | a list converted to a keyed block decodes to the same elements, and is refused exactly when an element is a typed Any or is refused itself |
| `KeyedMeaning.CanonPreservesMeaning` | src/pxf/keyed.cc:486-489 | a document the decoder accepts decodes to the same message after it is rewritten exactly when no list that becomes a keyed block has a typed Any for an element; with one it is refused |
| `KeyedAny.AllKept` | src/pxf/keyed.cc:109-154 | which is so of every document where no keyed field holds Any |
| `KeyedAny.TypedKeyRefused` | src/pxf/decode_fast.cc:1252-1290 | a list of Any keyed by type_url, with one typed element: accepted, and refused once rewritten |
| `KeyedNormal.KeyKept` | src/pxf/keyed.cc:491-508 | rewriting keeps an element's explicit key |
| `KeyedNormal.EligibleKept` | src/pxf/keyed.cc:109-154 | rewriting keeps whether a list can be converted |
| `KeyedNormal.ConvertibleIs` | src/pxf/keyed.cc:109-154 | a list is converted exactly when every element is a block with one key of its own, not empty, and no two keys are the same |
| `KeyedNormal.CanonNormal` | src/pxf/keyed.cc:205-226 | at every depth of a rewritten body no such list is left, names are quoted only where they must be, and no named entry repeats its name as its key |
| `KeyedNormal.NormalUnchanged` | src/pxf/keyed.cc:205-226 | a body of that form, said without the rewriting, is not changed |
| `KeyedNormal.CanonTwice` | src/pxf/keyed.cc:486-489 | rewriting leaves exactly the documents of that form as they are, so rewriting twice is rewriting once |
| `KeyedKeys.StepKeeps` | src/pxf/decode_fast.cc:849-1015 | no entry of a named element's body changes the key the name gave it |
| `KeyedKeys.BlockNamed` | src/pxf/decode_fast.cc:1367-1439 | a keyed block that is accepted adds one element for each entry, in order, its key the entry's name; names are not empty, valid UTF-8 and distinct |
| `PbStruct.MarshalScalar` | include/protowire/pb.h:338-388 | appends the record of a value, or fails past the depth limit |
| `PbStruct.MarshalRepeated` | include/protowire/pb.h:409-462 | appends one record for each element |
| `PbStruct.AppendElement` | include/protowire/pb.h:319-335 | appends one number or bool without a tag |
| `PbStruct.MarshalPacked` | include/protowire/pb.h:319-335 | the packed elements of a numeric vector |
| `PbStruct.MarshalMap` | include/protowire/pb.h:409-462 | appends one record for each entry |
| `PbStruct.MarshalEntry` | include/protowire/pb.h:394-406 | key and value of an entry, zero or not, an unset value as zero |
| `PbStruct.MarshalField` | include/protowire/pb.h:409-462 | appends a field of any kind |
| `PbStruct.MarshalStruct` | include/protowire/pb.h:465-477 | appends the fields in order, or fails at the first that cannot be written |
| `PbWritten.FieldOmitted` | include/protowire/pb.h:270-289 | a field is left out exactly when it holds its default and is not a struct held by value |
| `PbWritten.StructOmitted` | include/protowire/pb.h:465-477 | a struct is no bytes exactly when every field is left out |
| `PbWritten.StructFits` | include/protowire/pb.h:465-477 | a struct can be written exactly when its structs and map entries nest no deeper than the limit |
| `WireVectors.NaNsWritten` | test/pb_test.cc:302-324 | every NaN gives the one quiet NaN |
| `WireVectors.SignsWritten` | test/pb_test.cc:209-228 | -1 in ten bytes, and in one with zigzag |
| `WireVectors.FalseElement` | test/pb_test.cc:326-350 | a false element of a packed list is written |
| `WireVectors.FalseEntry` | test/pb_test.cc:326-350 | and so are a false key and a false value of a map |
| `PbStruct.UnmarshalScalar` | include/protowire/pb.h:482-573 | one value, merged into the current one for a struct |
| `PbStruct.UnmarshalPacked` | include/protowire/pb.h:576-673 | the elements of a packed record, under the count limit |
| `PbStruct.UnmarshalEntry` | include/protowire/pb.h:576-673 | an entry's records in any order, unknown ones skipped |
| `PbStruct.UnmarshalElements` | include/protowire/pb.h:576-673 | a vector's record, packed or of one element |
| `PbStruct.UnmarshalMapField` | include/protowire/pb.h:576-673 | a map's record: a descent of its own, counted before it is added |
| `PbStruct.UnmarshalField` | include/protowire/pb.h:576-673 | one record of any field |
| `PbStruct.UnmarshalStruct` | include/protowire/pb.h:679-712 | the loop over records decodes as the fold over them, depth and counts checked where the source checks them |
| `PbRoundTrip.ZeroIs` | include/protowire/pb.h:270-289 | the zero value is typed, small and its own normal form |
| `PbRoundTrip.ScalarReads` | include/protowire/pb.h:482-573 | a value that was written is read back, nested structs included, whatever follows |
| `PbRoundTrip.PackedReads` | include/protowire/pb.h:319-335 | packed elements are read back in order |
| `PbRoundTrip.RecordsRead` | include/protowire/pb.h:409-462 | so are elements written one to a record, of a type that is packed too |
| `PbRoundTrip.EntryReads` | include/protowire/pb.h:394-406 | so is a map entry, an unset value as zero |
| `PbRoundTrip.MapReads` | include/protowire/pb.h:409-462 | so is a map with distinct keys |
| `PbRoundTrip.FieldReads` | include/protowire/pb.h:409-462 | so is a field of any kind, leaving every other field as it was |
| `PbRoundTrip.StructReads` | include/protowire/pb.h:679-712 | what Marshal writes at a depth limit is accepted at that limit and gives the value back, NaNs in canonical form |
| `PbSound.StructSound` | include/protowire/pb.h:679-712 | read over a value of the type within the limits, any input that is accepted gives another |
| `PbSound.AcceptedIsTyped` | include/protowire/pb.h:679-712 | whatever bytes are accepted, the struct read from them is of its type: integers in range, strings valid UTF-8, map keys distinct, and no list or map past the count limit |
| `PbSound.TooDeep` | include/protowire/pb.h:576-673 | at the depth limit no struct and no map entry is accepted |
| `PbMerge.ScalarMerges` | include/protowire/pb.h:482-573 | a value read over another replaces it, but a struct is merged into it |
| `PbMerge.FieldMerges` | include/protowire/pb.h:576-673 | a field read over another: scalars and optionals are replaced, structs held by value or pointer are merged, lists grow, map entries are replaced by key |
| `PbMerge.StructMerges` | include/protowire/pb.h:679-712 | so is a struct read over any other of its type, every field left out keeping its value |
| `PbMerge.LastKeyStays` | include/protowire/pb.h:576-673 | a key of a merged map has the entry that came last |
| `PbMerge.ConcatMerges` | include/protowire/pb.h:679-712 | two encodings one after the other are read as the second merged into the first |
| `PbUnknown.RecordsConcat` | include/protowire/pb.h:679-712 | decoding two runs of records is decoding the first and then the second |
| `PbUnknown.UnknownIgnored` | include/protowire/pb.h:679-712 | a record of an unknown field between two runs of records changes nothing |
| `PbAlike.AlikeReads` | include/protowire/pb.h:679-712 | two inputs that differ in unknown records only, any number of them at any boundary and at every level, lengths rewritten, decode alike into whatever is there already |
| `PbAlike.EntryAlike` | include/protowire/pb.h:576-673 | so do two map entries |
| `PbAlike.AlikeAppend` | include/protowire/pb.h:679-712 | inputs that so differ can be joined |
| `PbAlike.UnknownBetween` | include/protowire/pb.h:679-712 | an unknown record may stand between any two records, those of one repeated field included |
| `PbAlike.UnknownInside` | include/protowire/pb.h:576-673 | and inside any submessage or map entry |
| `PbAlike.AlikeSelf` | include/protowire/pb.h:679-712 | every input that is accepted so differs from itself, by nothing |
| `PbAlike.RoundTripWithUnknown` | include/protowire/pb.h:679-712 | what Marshal writes, with unknown records put in anywhere at any level, is read back as the value it was written from |
| `FrameStreams.Encoder.WriteFrame` | src/pb/stream.cc:55-68 | appends one frame, of either format |
| `FrameStreams.Decoder.ReadUvarint` | src/pb/stream.cc:23-47 | byte by byte: the length, or which way it ended, a failing source included |
| `FrameStreams.Decoder.ReadSofh` | src/sbe/stream.cc:62-86 | the six bytes: the length, or which way they ended; a source that fails there counts as cut |
| `FrameStreams.Decoder.ReadFrame` | src/pb/stream.cc:70-105 | one frame or how it ended, by the end of the stream or a failure to read it; a failure inside a frame is every later result and changes nothing more, the end of the stream is not one |
| `Framing.FrameReads` | src/pb/stream.cc:55-105 | a frame that was written is read back, whatever follows |
| `Framing.FrameCut` | src/pb/stream.cc:70-105 | any proper prefix of a frame is the end of the stream if empty, otherwise an unexpected end; where the source fails, a failure of the kind that fits |
| `Framing.SofhReads` | src/sbe/stream.cc:41-60 | the header gives back the length below 2^32 |
| `FrameForms.SofhIs` | src/sbe/stream.cc:62-103 | a frame is read exactly where its header and body stand as they are written, no longer than the limit |
| `FrameForms.PrefixedIs` | src/pb/stream.cc:23-105 | a frame is read exactly where a varint of any size the reader takes and as many bytes stand, no more than the limit |
| `FrameForms.PastLimit` | src/pb/stream.cc:70-105 | a frame past the limit is corrupt, whatever there is of it after its header |
| `WireVectors.FramesWritten` | src/sbe/stream.cc:41-60 | a frame of either format, byte by byte |
| `Framing.WholeFramesAre` | src/sbe/stream.cc:62-103 | the frames counted as whole are, and one more would not be |
| `Framing.CutDelivers` | src/sbe/stream.cc:62-103 | a stream of frames cut anywhere delivers exactly the whole frames, and ends cleanly exactly when the cut is between two and the source did not fail |
| `Framing.StreamDelivers` | src/pb/stream.cc:55-105 | uncut, it delivers every frame and then the end |
| `BraceMatching.BraceMatch.Scan` | src/pxf/parser.cc:1082-1180 | one call advances depth, mode, escape and run as the specification's byte steps do |
| `BraceMatching.ResumeIsWhole` | src/pxf/parser.cc:1082-1180 | a scan that stays open and goes on with more bytes is the scan of all of them; a verdict is final |
| `BraceMatching.PiecesAreWhole` | src/pxf/parser.cc:1082-1180 | any series of growing prefixes gives the verdict and offset of one scan |
| `BraceText.SimpleScan` | src/pxf/parser.cc:1082-1180 | in text without quotes, comments and byte literals the scan ends at the first brace that makes closing ones outnumber opening ones, and only there |
| `BraceText.PieceGoes` | src/pxf/parser.cc:1082-1180 | a string with escapes, a raw string, a byte literal or a comment of either kind is passed over whole, braces in it or not |
| `BraceText.ClosesThere` | src/pxf/parser.cc:1082-1180 | in any text of such pieces the closing brace is the first outside them to outnumber the opening ones |
| `BraceText.StaysOpenThere` | src/pxf/parser.cc:1082-1180 | and where there is none the scan stays open |
| `StringText.DecodedEncodes` | src/detail/go_quote.cc:30-62 | a decoded rune is valid and encodes to its bytes |
| `StringText.GoQuote` | src/detail/go_quote.cc:116-132 | the loop writes the quoted form rune by rune, bytes that are no rune as hex |
| `StringText.EmitString` | src/pxf/encode.cc:200-232 | the loop writes the quoted form byte by byte |
| `StringRoundTrip.EscapedRuneReads` | src/detail/go_quote.cc:82-112 | every form a rune is written in lexes to its bytes |
| `StringRoundTrip.QuotedReads` | src/pxf/lexer.cc:355-502 | for every byte string, valid UTF-8 or not, the quoted form lexes to it and ends where it ended |
| `StringRoundTrip.PrintableNewlineFails` | src/detail/go_quote.cc:72-77 | the table of printable runes must not hold the newline: with it the newline alone does not lex |
| `StringRoundTrip.EmittedReads` | src/pxf/lexer.cc:355-502 | the same for the encoder's form |
| `StringForms.FormReads` | src/pxf/lexer.cc:392-481 | a sign, two hex digits, three octal ones, or a rune in four or eight hex digits after a backslash stand for what they mean |
| `StringForms.EscapeIsForm` | src/pxf/lexer.cc:392-481 | and nothing else is an escape |
| `StringForms.WrittenShortest` | src/detail/go_quote.cc:82-112 | no escape that stands for a rune is shorter than the one written |
| `StringForms.RunesWritten` | src/detail/go_quote.cc:116-132 | well-formed text is written rune by rune |
| `StringForms.QuotedAsIs` | src/detail/go_quote.cc:116-132 | printable text without quotes and backslashes is written as it is |
| `StringForms.EmittedAsIs` | src/pxf/encode.cc:200-232 | a string is written as it is exactly when it has no control byte, quote or backslash |
| `StringTokens.QuotedLexes` | src/pxf/lexer.cc:229-288 | it is one string token whatever follows, unless a quote follows the empty string |
| `StringTokens.EmittedLexes` | src/pxf/lexer.cc:229-288 | so is the encoder's form |
| `StringTokens.QuotedIsOneToken` | src/detail/go_quote.cc:116-132 | alone it is that token and then the end |
| `StringTokens.EmittedIsOneToken` | src/pxf/encode.cc:200-232 | so is the encoder's form |
| `PxfLexer.Lexer.Skip` | src/pxf/lexer.cc:213-222 | past the bytes of a class, as every run of the lexer does |
| `PxfLexer.Lexer.LexLineComment` | src/pxf/lexer.cc:290-294 | the comment up to the newline |
| `PxfLexer.Lexer.LexBlockComment` | src/pxf/lexer.cc:296-314 | the comment to its first end, or an error |
| `PxfLexer.Lexer.ReadHexByte` | src/pxf/lexer.cc:316-325 | two hex digits or none |
| `PxfLexer.Lexer.ReadHexRune` | src/pxf/lexer.cc:329-340 | n hex digits; those before a bad one stay consumed |
| `PxfLexer.Lexer.ReadOctRest` | src/pxf/lexer.cc:344-353 | two octal digits or none |
| `PxfLexer.Lexer.LexEscape` | src/pxf/lexer.cc:392-481 | the bytes of an escape and how many it takes, or where it fails |
| `PxfLexer.Lexer.LexString` | src/pxf/lexer.cc:355-502 | the value and end of a string, read in place until the first escape, or where it fails |
| `PxfLexer.Lexer.LexTripleString` | src/pxf/lexer.cc:504-525 | the raw text to the first three quotes, dedented, or an error |
| `PxfLexer.Lexer.LexBytes` | src/pxf/lexer.cc:527-571 | the literal to its quote, valid and within the limit, or an error |
| `PxfLexer.Lexer.LexDirective` | src/pxf/lexer.cc:573-589 | the directive and its name |
| `PxfLexer.Lexer.LexNumber` | src/pxf/lexer.cc:591-620 | signs, the signed infinities, timestamps and what follows whole digits |
| `PxfLexer.Lexer.LexAfterDigits` | src/pxf/lexer.cc:612-644 | duration, float or integer by what follows |
| `PxfLexer.Lexer.LexPrecision` | src/pxf/lexer.cc:648-654 | a precision suffix only with a digit |
| `PxfLexer.Lexer.LexFloat` | src/pxf/lexer.cc:667-679 | fraction, exponent and precision |
| `PxfLexer.Lexer.LexTimestamp` | src/pxf/lexer.cc:681-698 | the run to a byte that ends it or a comment, valid or an error |
| `PxfLexer.Lexer.LexDuration` | src/pxf/lexer.cc:700-724 | the run of segments, micro sign included, valid or an error |
| `PxfLexer.Lexer.LexIdent` | src/pxf/lexer.cc:726-735 | the identifier, and which are bool and null |
| `PxfLexer.Lexer.Next` | src/pxf/lexer.cc:229-288 | spaces skipped, the token of the specification, and the position at its end |
| `NumberTokens.LiteralLexes` | src/pxf/lexer.cc:591-679 | every number of the grammar, sign, fraction, exponent and precision, is one token, of the kind and with the text and precision it should have, where something that cannot go on follows |
| `NumberTokens.NumberTokenLooks` | src/pxf/lexer.cc:591-679 | a number token is a sign, digits, up to two fractions, an exponent mark and digits, and a precision; a float exactly when it has a fraction or a mark |
| `NumberTokens.LooseNumbers` | src/pxf/lexer.cc:667-679 | 1.5.25 is one token and 1e is another |
| `BigFloatLexed.WrittenLexes` | src/pxf/bigfloat.cc:817-910 | a BigFloat that is written is one number token, with its precision |
| `Lexemes.NameLexes` | src/pxf/lexer.cc:726-735 | every name is one token: a bool, null or an identifier |
| `Lexemes.SafeNamesLex` | src/pxf/keyed.cc:475-484 | a name is written without quotes exactly when it lexes as one identifier |
| `Lexemes.DirectiveLexes` | src/pxf/lexer.cc:573-589 | a directive is one token, by its name |
| `Lexemes.LineLexes` | src/pxf/lexer.cc:290-294 | a line comment is one token up to the line's end |
| `Lexemes.BlockLexes` | src/pxf/lexer.cc:296-314 | a block comment is one token |
| `Lexemes.RawLexes` | src/pxf/lexer.cc:504-525 | a raw string is one token, dedented |
| `Lexemes.BytesLex` | src/pxf/lexer.cc:527-571 | a byte literal is one token |
| `Lexemes.TimeLexes` | src/pxf/lexer.cc:681-698 | a timestamp is one token |
| `Lexemes.SpanLexes` | src/pxf/lexer.cc:700-724 | a duration is one token |
| `Lexemes.InfinityLexes` | src/pxf/lexer.cc:591-601 | so are the two signed infinities |
| `Lexemes.MarkLexes` | src/pxf/lexer.cc:229-288 | and each mark |
| `Lexemes.LexemeLexes` | src/pxf/lexer.cc:229-288 | whatever is spelled lexes as the token it was spelled from, where it may stand before what follows |
| `Lexemes.LinesLex` | src/pxf/lexer.cc:229-288 | a text of lexemes, one to a line and indented anyhow, has their tokens in order |
| `TokenStability.NumberStable` | src/pxf/lexer.cc:591-644 | a number whose next bytes are known is the same with any more bytes |
| `TokensTaken.TakenStable` | src/pxf/dataset_reader.cc:509-542 | a token that passes Complete, and is not an error, is the token of every longer stream, with the same end |
| `TokensTaken.ErrorStays` | src/pxf/dataset_reader.cc:509-542 | an error that passes Complete is one in every longer stream exactly when the bytes do not end inside an eight-digit escape that can still be read |
| `TokensTaken.ErrorTakenEarly` | src/pxf/dataset_reader.cc:509-542 | U+1F600 as an eight-digit escape, cut after its fifth digit: refused, though the whole is a string |
| `StringStability.NoRuneThere` | src/pxf/lexer.cc:329-340 | with four digits or more read, if no rune has those digits followed by zeros, none has them at all |
| `StringStability.FailureStays` | src/pxf/lexer.cc:355-502 | a string that fails with four bytes to spare fails for good, but for that escape |
| `StringStability.CutStringReads` | src/pxf/lexer.cc:355-502 | and at that escape it does not: zeros and a quote make it a string that ends there |
| `RowScan.Scanner.ScanRow` | src/pxf/dataset_reader.cc:409-464 | one scan from where the last left off: the verdict, the row and the state the specification gives |
| `RowScan.ResumeIsWhole` | src/pxf/dataset_reader.cc:409-464 | a scan that needs more and goes on with the whole stream finds what a scan from the start finds |
| `RowScan.EarlyIsWhole` | src/pxf/dataset_reader.cc:409-464 | a verdict given while the stream is open is the verdict of every stream that goes on from there, exactly when it is not given inside a row on bytes that end in such an escape |
| `RowScan.ReadsAreWhole` | src/pxf/dataset_reader.cc:409-464 | however the stream is cut into reads, none of them there, the first verdict, the row's start and its end are those of the whole |
| `RowScan.ReadsDecide` | src/pxf/dataset_reader.cc:409-464 | a verdict reached over any reads of an open stream holds however the stream goes on, exactly when no read was cut there |
| `RowText.RowsAre` | src/pxf/dataset_reader.cc:409-464 | said of the tokens: a row is an opening parenthesis and all up to the first closing one, refused at another opening one or an error and waited for without any; a directive ends the rows and anything else is no row |
| `RowAtOnce.RowNotHeldUp` | src/pxf/dataset_reader.cc:498-542 | bytes that hold a whole row let it through while the stream is open, with the same start and end: nothing in a closed row is waited for |
| `Calendar.YearOfEraIs` | src/detail/rfc3339.cc:118-123 | the year formula gives the year whose days hold the day, for all 146097 days of an era |
| `Calendar.YearOfEraBack` | src/detail/rfc3339.cc:118-124 | and it is the only such year |
| `Calendar.DateOfDay` | src/detail/rfc3339.cc:14-21 | every integer day has a valid date, and DaysFromCivil takes it back |
| `Calendar.DayOfDate` | src/detail/rfc3339.cc:118-128 | every valid date comes back from its day |
| `CalendarDays.Epoch` | src/detail/rfc3339.cc:14-21 | day 0 is 1 January 1970 |
| `CalendarDays.DaysAreCounted` | src/detail/rfc3339.cc:14-21 | the next date on the calendar is a day later |
| `CalendarDays.DaysGoOn` | src/detail/rfc3339.cc:118-128 | and the date of the next day is the next date, for every day |
| `Rfc3339.FormatRFC3339Nano` | src/detail/rfc3339.cc:110-168 | date, time and fraction without trailing zeros, for every int32 of nanoseconds |
| `Rfc3339.ParseUInt` | src/detail/rfc3339.cc:23-31 | accepts exactly digits, and gives their value |
| `Rfc3339.ParseFraction` | src/detail/rfc3339.cc:57-69 | the digits of the fraction, and the nanoseconds they make |
| `Rfc3339.ParseZone` | src/detail/rfc3339.cc:73-89 | Z or an offset in range |
| `Rfc3339.ParseTail` | src/detail/rfc3339.cc:56-89 | fraction and zone, and nothing after |
| `Rfc3339.ParseRFC3339` | src/detail/rfc3339.cc:39-108 | accepts and gives what the grammar of section 5.6 of RFC 3339, as the code reads it, gives |
| `Rfc3339.TailReads` | src/detail/rfc3339.cc:134-168 | a fraction that was written is read back |
| `Rfc3339.TimestampReadsBack` | src/detail/rfc3339.cc:110-168 | for years 0000 to 9999 and every nanosecond, parsing the formatted time gives it back |
| `TimestampText.StampReads` | src/detail/rfc3339.cc:39-108 | a text of the grammar is read as its instant, what the clock shows less the offset, the fraction cut to nanoseconds; out of range it is refused |
| `TimestampText.ReadIsStamp` | src/detail/rfc3339.cc:39-108 | and no other text is read |
| `TimestampText.FractionWritten` | src/detail/rfc3339.cc:134-168 | a fraction is written without trailing zeros and means the nanoseconds it was written from |

## Left out

- BigFloatParse.ParseBigFloatLiteral: what the gate decides, since it imitates another library's rounding; and literals whose significant digits overflow the int that counts them, which C++ leaves undefined, or of 2^48 characters.
- BigFloatRoundTrip.BigFloatFromString: the same literals.
- BigFloatParse.RoundLiteral: the 64-bit sums of exponents and bit lengths are integers without a width.
- DecimalWire.DecimalRoundTrip: magnitudes of 2^64 bytes or more; and, with BigFloatWire, the int that counts consumed bytes, which fields of 2 GiB would overflow.
- Knuth.MulSub: the window of limbs is a sequence taken and returned, not part of a vector updated in place; the same holds for the byte and limb vectors of ByteMagnitude and DecimalWire.
- SbeCodec.WriteFields: the buffer is taken and returned as a sequence.
- KeyedCanon.CanonEntries: the rewritten entries are returned rather than moved within their vector.
- PbStruct.MarshalStruct: the output vector is taken and returned, and so are the fields that UnmarshalStruct fills.
- SbeTemplate.BuildTemplate: float fields carried in the other width; fields arrive in number order, as SortedFields leaves them; message types without fields are excluded where soundness is claimed, and so are recursive ones, since a schema is a finite tree.
- SbeTemplate.BuildField: a float annotated as double, or a double as float, whose conversion rounds, is refused.
- SbeTemplate.BuildCompositeFields: float fields carried in the other width.
- SbeTemplate.BuildGroupTemplate: float fields carried in the other width.
- SbeCodec.WriteScalar: float fields carried in the other width.
- SbeCodec.Marshal: float fields carried in the other width, and signalling NaN payloads.
- SbeCodec.UnmarshalInto: the validator that runs on the decoded message, and a message that is not empty before.
- SbeView.NewView: Float has no method of its own, as it only reinterprets the bits that Uint reads.
- SbeView.ViewAgreesWithDecoder: names the first field of a name, as a descriptor has no two.
- KeyedMeaning.CanonPreservesMeaning: the decoder is modelled on the AST rather than on tokens; the bytes an Any packs its message to, secrets, comments and where DropKeyAssignments moves them, positions and presence marks are left out.
- PbStruct.MarshalScalar: BigInt, Decimal and BigFloat fields.
- PbRoundTrip.ScalarReads: BigInt, Decimal and BigFloat fields.
- PbRoundTrip.StructReads: maps are lists in iteration order with distinct keys; BigInt, Decimal and BigFloat fields have their own round trips and are not struct fields here.
- PxfLexer.Lexer.LexBlockComment: the tolerant mode.
- PxfLexer.Lexer.LexEscape: the tolerant mode.
- PxfLexer.Lexer.LexString: the tolerant mode.
- PxfLexer.Lexer.LexTripleString: the tolerant mode.
- PxfLexer.Lexer.LexBytes: the tolerant mode.
- PxfLexer.Lexer.Next: the tolerant mode, line and column counting, and the message of an illegal token.
- RowScan.Scanner.ScanRow: MayEndToken, which only puts off lexing a waiting token again, and the header scan before the rows.
- FrameStreams.Encoder.WriteFrame: write errors, and for SBE that the body came from Marshal.
- BigInt: its wire message and decimal text, and Decimal's text, which would only repeat simpler cases of the above.
- Codec registration, descriptors, options and annotations of protobuf.
- The PXF parser, the encoder other than strings, XML, validation and the envelope.
