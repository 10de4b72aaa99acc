# lefein_kotlin text codec and ROM reader, in Dafny

This project models the core of `lefein_kotlin`, a reader for the Final Fantasy
NES ROM image. The core has two parts.

- **`Config`** is the text codec. It builds two lookup tables from the ordered
  text table, which pairs hex byte keys with tokens:
  - `byteToChar`, where the last write for a byte wins;
  - `charsToByte`, where the first write for a token wins.

  It also provides:
  - the greedy `encodeText`, which tries two characters before one and fills a
    buffer of `text.length + 1` bytes that ends in a `0x00` terminator;
  - the `decodeText` fold;
  - the prefix-dispatched integer parser `String.asInt`;
  - the `dataPointer` and `dataSize` lookups.
- **`Rom` and `MagicSpell`** are the image reader:
  - the iNES mapper number taken from header bytes 6 and 7;
  - the randomizer check (mapper 4);
  - `fetchStrings`, which reads back-to-back zero-terminated strings;
  - the record slicing of `test`;
  - `MagicSpell.fromBytes`.

Layout:

- `wrappers.dfy` (module `Wrappers`) holds `Option`, `Result` and `Prepend`.
  `Prepend` puts a prefix in front of a successful sequence result.
- `kotlin_lib.dfy` (module `KotlinLib`) holds the Kotlin standard-library
  behaviour the core relies on:
  - `UByte`;
  - 32-bit `Int` wrap-around;
  - `toInt(radix)` and `toUByte(radix)`;
  - `copyOfRange`, with Kotlin's end-index check first and `from > to` compared
    exactly; the JVM compares `to - from` in 32-bit arithmetic, which can name
    a different exception but never changes whether the copy succeeds;
  - a digit formatter, which serves as the inverse of the parsers.
- `config.dfy` (module `Configuration`) holds the tables, the encoder, the
  decoder, `asInt`, `dataPointer` and `dataSize`.
- `program.dfy` (module `Program`) holds `Rom`, `MagicSpell` and `test`.

Where the source mutates state step by step, the model is a `method` with a loop.
Each such method is proved equal to a specification function:

| method | what it does | specification function |
|---|---|---|
| `BuildByteToChar` | table-building `forEach` loop | `ByteToCharOf` |
| `BuildCharsToByte` | table-building `forEach` loop | `CharsToByteOf` |
| `EncodeText` | `encodeText`, which fills an `array` | `Encode` |
| `ReadStrings` | `fetchStrings` loop with its inner `while` scan | `StringsFrom` |
| `ReadRecords` | `forEachIndexed` loop of `test` | `SpellsFrom` |

The properties the source promises are proved as lemmas about those functions.

The image is a value (`seq<byte>`), because nothing in the core writes to it.
Exceptions become `Failure` values of `KotlinLib.Error`.

Two behaviours of `decodeText` are kept as the code has them:
- `decodeText` does not stop at a zero byte. The fold skips that byte and goes on
  decoding the bytes after it (`DecodeContinuesPastTerminator`).
- A non-zero byte that has no token does not raise an error. `acc + null`
  appends the four characters `null` (`DecodeMissingByte`).

## Model

| member | source | states |
|---|---|---|
| KotlinLib.WrapInRange | src/Program.kt:52 | `Int` arithmetic whose exact result fits in 32 bits does not wrap |
| KotlinLib.WrapCongruent | src/Program.kt:50 | a wrapped `Int` result differs from the exact value by a multiple of 2^32 |
| KotlinLib.DigitsRoundTrip | src/Config.kt:95-97 | every number written in a radix is all digits of that radix, and its digit value is the number |
| KotlinLib.DigitsNoLeadingZero | src/Config.kt:96-97 | a positive number's decimal text does not start with `0`, so it never takes the octal branch |
| KotlinLib.ToIntOfDigits | src/Config.kt:95-97 | `toInt(radix)` reads back every non-negative `Int` written in that radix |
| KotlinLib.ToIntOfNegative | src/Config.kt:97 | `toInt(radix)` reads `-` followed by the digits of a magnitude of at most 2^31 as the negative number |
| KotlinLib.ToUByteOfDigits | src/Config.kt:33 | `toUByte(radix)` reads back every byte written in that radix |
| KotlinLib.CopyOfRange | src/Program.kt:50 | `copyOfRange(from, to)` succeeds exactly when `0 <= from <= to <= size`, and then returns the elements `[from, to)` |
| Configuration.HexKey | src/Config.kt:33 | a two-digit hex key parses as `16 * high digit + low digit` |
| Configuration.ByteToCharDomain | src/Config.kt:30-37 | `byteToChar` defines exactly the bytes that some key names |
| Configuration.ByteToCharLastWins | src/Config.kt:32-35 | a byte decodes to the token of the last entry whose key names it |
| Configuration.CharsToByteDomain | src/Config.kt:39-48 | `charsToByte` defines exactly the tokens of the entries |
| Configuration.CharsToByteFirstWins | src/Config.kt:41-46 | a token encodes to the byte of the first entry that carries it; later entries with that token are ignored |
| Configuration.CharsToByteSource | src/Config.kt:41-46 | every byte that `charsToByte` hands out comes from an entry carrying that token |
| Configuration.TablesAreInverse | src/Config.kt:30-48 | when no two keys name the same byte and none names `0x00`, every token encodes to a non-zero byte that decodes back to that token |
| Configuration.BuildByteToChar | src/Config.kt:30-37 | the loop succeeds exactly when every key parses, and then builds `ByteToCharOf` of the parsed entries |
| Configuration.BuildCharsToByte | src/Config.kt:39-48 | the loop succeeds exactly when every key parses, and then builds `CharsToByteOf` of the parsed entries |
| Configuration.NewConfig | src/Config.kt:19-48 | a configuration exists exactly when every key parses, and it holds both tables built from the text table |
| Configuration.EncodeText | src/Config.kt:50-79 | the buffer loop returns exactly `Encode`: the greedy body followed by one terminator, or the failure naming the first character it cannot encode |
| Configuration.EncodeBodyLength | src/Config.kt:54-75 | each emitted byte consumes one or two characters, so a body has between ceil(n/2) and n bytes |
| Configuration.EncodeShape | src/Config.kt:52-78 | an encoding ends in `0x00`, and its length lies between ceil(n/2) + 1 and n + 1 |
| Configuration.EncodeEmpty | src/Config.kt:53-78 | the empty text encodes to the single terminator |
| Configuration.EncodePrefersPair | src/Config.kt:58-66 | a two-character token at the front is emitted as one byte before the rest is encoded |
| Configuration.GreedyExample | src/Config.kt:58-66 | with `A`→01, `B`→02 and `AB`→03, `AB` encodes to `03 00`, and both `03 00` and `01 02 00` decode to `AB` |
| Configuration.EncodeSucceedsWhenCharsMapped | src/Config.kt:67-70 | encoding cannot fail when every character of the text is itself a token |
| Configuration.EncodeFailureNamesChar | src/Config.kt:68-69 | a failure names a character of the text that has no one-character token |
| Configuration.EncodeFailsWhenStuck | src/Config.kt:57-75 | when the greedy cursor reaches a position with no two-character match and no token for the character there, encoding fails naming that character |
| Configuration.EncodeFailureIsStuck | src/Config.kt:57-75 | conversely, encoding fails only at a position the cursor reaches and is stuck at |
| Configuration.EncodeBodyHasNoTerminator | src/Config.kt:64-77 | when no token is encoded as `0x00`, the terminator occurs only at the end of an encoding |
| Configuration.DecodeOne | src/Config.kt:82-84 | one byte decodes to its token, to nothing for `0x00`, and to `null` when it has no token |
| Configuration.DecodeAppend | src/Config.kt:81-85 | decoding distributes over concatenation of byte sequences |
| Configuration.DecodeIsTokens | src/Config.kt:81-85 | the fold is the front-to-back concatenation of the tokens of the bytes |
| Configuration.DecodeContinuesPastTerminator | src/Config.kt:83 | a zero byte contributes nothing, and the bytes after it are still decoded |
| Configuration.DecodeIgnoresZeros | src/Config.kt:83 | decoding equals decoding with every zero byte removed |
| Configuration.DecodeText | src/Config.kt:81-85 | the left fold of `decodeText` still puts the first byte's contribution first: a non-zero first byte without a token makes the text start with `null`; its full meaning is `DecodeIsTokens` and `DecodeIgnoresZeros` |
| Configuration.DecodeMissingByte | src/Config.kt:84 | a non-zero byte without a token appends the text `null` |
| Configuration.GreedyDecodes | src/Config.kt:81-85 | under the table `01`→`A`, `02`→`B`, `03`→`AB`, both `03 00` and `01 02 00` decode to `AB` |
| Configuration.DecodeEncodeBody | src/Config.kt:50-85 | with inverse tables, decoding an encoded body gives the text back |
| Configuration.RoundTrip | src/Config.kt:30-85 | when keys are distinct bytes and none is `0x00`, `decodeText(encodeText(t)) == t` for every encodable `t` |
| Configuration.GreedyTables | src/Config.kt:30-48 | the tables built from `01`→`A`, `02`→`B`, `03`→`AB` |
| Configuration.DuplicateTokenExample | src/Config.kt:30-48 | with `10`→space then `11`→space, both bytes decode to a space, and a space encodes to `10 00` |
| Configuration.AsInt | src/Config.kt:93-98 | `String.asInt` gives a number only for a non-empty text other than the bare `0x` prefix, and a negative one only when the text has a `-`; what it reads back is `AsIntHex`, `AsIntOctal` and `AsIntDecimal` |
| Configuration.AsIntHex | src/Config.kt:95 | `0x` followed by hex digits reads back the number |
| Configuration.AsIntOctal | src/Config.kt:96 | `0` followed by octal digits reads back the number |
| Configuration.AsIntDecimal | src/Config.kt:97 | the decimal text of a positive `Int` reads back the number |
| Configuration.AsIntZero | src/Config.kt:96 | `0` alone fails, because its octal remainder is empty |
| Configuration.AsIntExamples | src/Config.kt:93-98 | `0x10`, `020` and `16` all read as 16 |
| Configuration.DataPointer | src/Config.kt:24-27 | a missing key gives nothing; a present key gives `asInt` of its text, or fails with NumberFormat exactly when that text does not parse |
| Configuration.DataPointerOfHex | src/Config.kt:24-27 | a pointer stored as `0x` and hex digits is read as that number |
| Configuration.DataSize | src/Config.kt:28 | the stored size for a present key, and nothing for an absent one |
| Program.Mapper | src/Program.kt:37 | the mapper is defined exactly when the header bytes 6 and 7 exist, and it lies in 0..255 |
| Program.MapperNibbles | src/Program.kt:37 | the mapper's low nibble is the high nibble of flags 6, and its high nibble is the high nibble of flags 7 |
| Program.IsRandomized | src/Program.kt:43 | a ROM is randomized exactly when its mapper is 4 |
| Program.IsRandomizedHeader | src/Program.kt:37-43 | a ROM is randomized exactly when the high nibble of flags 6 is 4 and the high nibble of flags 7 is 0 |
| Program.TerminatorFrom | src/Program.kt:69 | a scan that stops does so inside the image, at or after its start, on a zero byte |
| Program.TerminatorIsFirstZero | src/Program.kt:69 | the scan stops at the first zero byte; it finds none only when every byte from the start on is non-zero |
| Program.TerminatorFound | src/Program.kt:69 | a scan that meets a zero after only non-zero bytes stops there |
| Program.TerminatorMissing | src/Program.kt:69 | a scan that leaves the image after only non-zero bytes finds no terminator |
| Program.ScanTerminator | src/Program.kt:69 | the `while` scan returns where `TerminatorFrom` says it stops, or reports that it read outside the image |
| Program.NextString | src/Program.kt:67-71 | one turn of the loop: the decoded bytes up to the terminator, with the cursor one past it, or nothing when there is no terminator |
| Program.StringsFrom | src/Program.kt:59-74 | a successful read of `count` strings returns exactly `count` strings |
| Program.FetchStrings | src/Program.kt:59-74 | `fetchStrings(offset, count)` reads `max(count, 0)` strings back to back, as `StringsFrom` says |
| Program.ReadStrings | src/Program.kt:60-73 | the `for` loop with its nested scan computes exactly `StringsFrom` |
| Program.StringsAt | src/Program.kt:66-72 | string `k` is the decoding of the bytes from its start to the next terminator |
| Program.StringStartNext | src/Program.kt:67-71 | string `k + 1` starts one past the terminator of string `k` |
| Program.StringsLayout | src/Program.kt:66-72 | string `k` decodes the bytes strictly between its start and the next zero byte, none of which is zero, and string `k + 1` starts right after that zero |
| Program.StringsSucceedIff | src/Program.kt:66-72 | reading `count` strings succeeds exactly when the scan finds `count` terminators in turn |
| Program.StringsFailWithoutTerminator | src/Program.kt:69 | when no zero byte follows the start, the read fails instead of returning a truncated string |
| Program.FromBytes | src/Program.kt:90-101 | `fromBytes` succeeds exactly when the slice holds at least eight bytes |
| Program.FromBytesReadsPrefix | src/Program.kt:90-101 | `fromBytes` keeps the name and sets `hitRate` .. `unused` to bytes 0..7 in order |
| Program.FromSpellBytes | src/Program.kt:77-101 | every spell is read back from its own name and its eight data bytes |
| Program.SpellAt | src/Program.kt:52-54 | a record read keeps the name it was given |
| Program.SpellsFrom | src/Program.kt:51-56 | the loop from position `index` yields one spell per remaining name |
| Program.MagicSpellsNeedAllLookups | src/Program.kt:46-48 | `test` produces nothing exactly when one of its three lookups is absent |
| Program.SpellTable | src/Program.kt:50-56 | a successful table read holds 64 spells |
| Program.Test | src/Program.kt:45-57 | the early returns, then the table read, compute exactly `MagicSpells` |
| Program.ReadSpells | src/Program.kt:50-56 | the bounds check, the 64 names and the record loop compute exactly `SpellTable` |
| Program.ReadRecords | src/Program.kt:51-56 | the `forEachIndexed` loop computes exactly `SpellsFrom`, stopping at the first failing record |
| Program.RecordOffsets | src/Program.kt:52-54 | within a table that fits in an `Int`, record `i` spans `base + i*size` to `base + (i+1)*size` without wrap-around |
| Program.TableInBounds | src/Program.kt:50 | the bounds check on `[base, base + 64*size)` passes when that range lies inside the image |
| Program.SpellAtRecord | src/Program.kt:52-54 | record `i` of a table inside the image is the slice `[base + i*size, base + (i+1)*size)` |
| Program.SpellAtReadsRecord | src/Program.kt:52-54 | a record of at least eight bytes becomes a spell with the given name and the record's first eight bytes |
| Program.SpellsFromSteps | src/Program.kt:51-56 | when every record read succeeds, spell `i` of the loop's result is the record read `i` |
| Program.SpellsAreRecords | src/Program.kt:51-56 | with records at least eight bytes wide inside the image, spell `i` carries name `i` and the first eight bytes of record `i` |
| Program.SpellTableAreSlices | src/Program.kt:50-56 | a table inside the image with readable names holds 64 spells, spell `i` carrying name `i` and the first eight bytes of record `i` |
| Program.MagicSpellsAreSlices | src/Program.kt:45-57 | with all three lookups present, `test` produces the 64 spells sliced from the table they locate |
| Program.SpellTableFits | src/Program.kt:50-55 | a successful table read implies `[base, base + 64*size)` lies inside the image, even when `64*size` or `base + 64*size` wraps in `Int` arithmetic: a wrapped bounds check is caught by a later record copy |
| Program.SpellTableOutOfBounds | src/Program.kt:50-55 | when `[base, base + 64*size)` does not fit in the image, the table read fails, whether or not the `Int` offsets wrap |
| Program.SpellsFromShortRecord | src/Program.kt:54 | a record narrower than eight bytes makes the loop fail at its first record |
| Program.SpellTableShortRecords | src/Program.kt:50-56 | records narrower than the eight bytes `fromBytes` reads make the table read fail |

## Left out

- `main` (src/Program.kt:21-32) is not modelled. It reads the ROM and the JSON configuration from files and prints.
- The `println` in `test` (src/Program.kt:55) is not modelled. `test` is modelled as `MagicSpells`, which returns the spells that it would print.
- `lateinit` and `by lazy` are not modelled. Both tables are built eagerly by `NewConfig`, so a key that does not parse makes `NewConfig` fail. In the source, such a key throws only on the first encode or decode that touches the table.
- The `textTable` field itself is not part of `Config`. Only the two tables built from it, `dataPointers` and `structureSizes` are kept, and the text table is passed to `NewConfig` as an ordered `seq`.
- Exception types and messages are not modelled. Each exception is one `Error` value; `NoEncodingFor` carries the offending character.
- `toInt` and `toUByte` accept ASCII digits and letters only. Kotlin also accepts other Unicode digits.
- Text is a `seq<char>`, not UTF-16. A character is one element, and surrogate pairs are not modelled.
- Printing the spells before a later record fails is not modelled. `MagicSpells` returns only the failure. This matters only when `64*size` wraps around in 32-bit `Int` arithmetic and the whole-table check therefore passes (src/Program.kt:50). Records that fit are then read and printed before a record past the end throws (src/Program.kt:52-55).
- The unused `magicData` slice (src/Program.kt:50) is modelled only as the bounds check that its `copyOfRange` performs.
- Program.MapperNibbles: the nibble facts are stated on the zero-extended 32-bit `Int` (`HighNibble`, `ToIntBits`). They are not restated on the integer value of the byte.
- Program.IsRandomizedHeader: same as `MapperNibbles`; the nibbles are those of the zero-extended `Int`.
- Configuration.RoundTrip: it holds only under two assumptions. No two keys may name the same byte, and no key may name `0x00`. The source checks neither.
- Configuration.EncodeBodyHasNoTerminator: it assumes that no token is encoded as `0x00`. A key `00` in the text table would break it.
