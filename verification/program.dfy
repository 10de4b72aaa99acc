/**
 * The ROM reader of `Rom` and `MagicSpell`: the iNES mapper number, the
 * randomizer check, reading back-to-back zero-terminated strings, and slicing
 * the fixed-width magic-spell records.
 */
module Program {
  import opened Wrappers
  import opened KotlinLib
  import opened Configuration

  /** A ROM image (read once, never changed) and the configuration that locates its data. */
  datatype Rom = Rom(contents: seq<byte>, config: Config)

  // ---------------------------------------------------------------------
  // Header

  /** `UByte.toInt()`: the byte zero-extended to a 32-bit `Int`. */
  function ToIntBits(b: byte): (x: bv32)
    ensures x < 256
  {
    b as bv32
  }

  /** The high nibble of a header byte, bits 4 to 7 of its `Int` value. */
  function HighNibble(b: byte): (h: int)
    ensures 0 <= h < 16
  {
    ShiftIsDivision(ToIntBits(b));
    (ToIntBits(b) >> 4) as int
  }

  /** The mapper expression on two header bytes, as 32-bit `Int` bit operations. */
  function MapperBits(flags6: bv32, flags7: bv32): bv32 {
    (((flags6 >> 4) & 0x0f) | (flags7 & 0xf0)) & 0x0ff
  }

  /** Bit-level nibble facts about the mapper expression. */
  lemma MapperBitsNibbles(x: bv32, y: bv32)
    requires x < 256 && y < 256
    ensures MapperBits(x, y) < 256
    ensures MapperBits(x, y) & 0x0f == x >> 4 && MapperBits(x, y) >> 4 == y >> 4
  {
  }

  lemma ShiftIsDivision(e: bv32)
    requires e < 256
    ensures (e >> 4) as int == e as int / 16
  {
  }

  lemma MaskIsModulo(e: bv32)
    requires e < 256
    ensures (e & 0x0f) as int == e as int % 16
  {
  }

  lemma SmallBits(e: bv32)
    requires e < 256
    ensures e as int < 256
  {
  }

  /**
   * `Rom.mapper`: `((flags6 shr 4) and 0x0f) or (flags7 and 0xf0)`, masked to a
   * byte, on header bytes 6 and 7. An image shorter than the header makes the
   * byte reads throw.
   */
  function Mapper(rom: Rom): (r: Result<int, Error>)
    ensures r.Success? <==> |rom.contents| >= 8
    ensures r.Success? ==> 0 <= r.value < 256
  {
    if |rom.contents| < 8 then Failure(IndexOutOfBounds)
    else
      var flags6, flags7 := ToIntBits(rom.contents[6]), ToIntBits(rom.contents[7]);
      assert MapperBits(flags6, flags7) as int < 256 by {
        MapperBitsNibbles(flags6, flags7);
        SmallBits(MapperBits(flags6, flags7));
      }
      Success(MapperBits(flags6, flags7) as int)
  }

  /** The mapper's low nibble is the high nibble of flags 6, its high nibble the high nibble of flags 7. */
  lemma MapperNibbles(rom: Rom)
    requires |rom.contents| >= 8
    ensures Mapper(rom).value % 16 == HighNibble(rom.contents[6])
    ensures Mapper(rom).value / 16 == HighNibble(rom.contents[7])
  {
    var x, y := ToIntBits(rom.contents[6]), ToIntBits(rom.contents[7]);
    var e := MapperBits(x, y);
    MapperBitsNibbles(x, y);
    MaskIsModulo(e);
    ShiftIsDivision(e);
  }

  /** `Rom.isRandomized`: the randomizer switches the game to mapper 4 (MMC3). */
  function IsRandomized(rom: Rom): (r: Result<bool, Error>)
    ensures r.Success? <==> Mapper(rom).Success?
    ensures r.Success? ==> (r.value <==> Mapper(rom).value == 4)
  {
    match Mapper(rom)
    case Success(m) => Success(m == 4)
    case Failure(e) => Failure(e)
  }

  /** A ROM is randomized exactly when flags 6 carries 4 and flags 7 carries 0 in their high nibbles. */
  lemma IsRandomizedHeader(rom: Rom)
    requires |rom.contents| >= 8
    ensures IsRandomized(rom) == Success(true) <==>
      HighNibble(rom.contents[6]) == 4 && HighNibble(rom.contents[7]) == 0
  {
    MapperNibbles(rom);
    var m := Mapper(rom).value;
    assert m == 16 * (m / 16) + m % 16;
  }

  // ---------------------------------------------------------------------
  // Strings

  /**
   * Where the scan `while (contents[index] != NULL_BYTE) ++index` started at `i`
   * stops: the first zero byte at or after `i`, or nothing when the scan reads
   * outside the image.
   */
  function TerminatorFrom(contents: seq<byte>, i: int): (z: Option<nat>)
    ensures z.Some? ==> 0 <= i <= z.value < |contents| && contents[z.value] == NULL_BYTE
    decreases |contents| - i
  {
    if i < 0 || i >= |contents| then None
    else if contents[i] == NULL_BYTE then Some(i)
    else TerminatorFrom(contents, i + 1)
  }

  /** The scan stops at the first zero byte from `i`, and finds none only when every byte from `i` on is non-zero. */
  lemma {:induction false} TerminatorIsFirstZero(contents: seq<byte>, i: int)
    ensures var z := TerminatorFrom(contents, i);
      z.Some? ==> forall j :: i <= j < z.value ==> contents[j] != NULL_BYTE
    ensures TerminatorFrom(contents, i).None? ==> i < 0 || forall j :: i <= j < |contents| ==> contents[j] != NULL_BYTE
    decreases |contents| - i
  {
    if 0 <= i < |contents| && contents[i] != NULL_BYTE {
      TerminatorIsFirstZero(contents, i + 1);
    }
  }

  /** Every position from `start` up to `index` lies in the image and holds a non-zero byte. */
  predicate NonZeroRun(contents: seq<byte>, start: int, index: int) {
    && start <= index
    && (start < index ==> 0 <= start && index <= |contents|)
    && forall j :: start <= j < index ==> contents[j] != NULL_BYTE
  }

  /** A scan that meets a zero at `index` after only non-zero bytes stops there. */
  lemma {:induction false} TerminatorFound(contents: seq<byte>, start: int, index: int)
    requires 0 <= start <= index < |contents| && contents[index] == NULL_BYTE
    requires NonZeroRun(contents, start, index)
    ensures TerminatorFrom(contents, start) == Some(index)
    decreases index - start
  {
    if start < index {
      NonZeroRunTail(contents, start, index);
      TerminatorFound(contents, start + 1, index);
    }
  }

  /** A scan that leaves the image after only non-zero bytes finds no terminator. */
  lemma {:induction false} TerminatorMissing(contents: seq<byte>, start: int, index: int)
    requires start <= index && (index < 0 || index >= |contents|)
    requires NonZeroRun(contents, start, index)
    ensures TerminatorFrom(contents, start).None?
    decreases index - start
  {
    if start < index {
      NonZeroRunTail(contents, start, index);
      TerminatorMissing(contents, start + 1, index);
    }
  }

  /** A run of non-zero bytes without its first position is still one. */
  lemma NonZeroRunTail(contents: seq<byte>, start: int, index: int)
    requires start < index && NonZeroRun(contents, start, index)
    ensures 0 <= start < |contents| && contents[start] != NULL_BYTE
    ensures NonZeroRun(contents, start + 1, index)
  {
  }

  /** The `count` strings read back to back from `start`: each one ends at the next zero byte. */
  function StringsFrom(contents: seq<byte>, byteToChar: map<byte, string>, start: int, count: nat)
    : (r: Result<seq<string>, Error>)
    ensures r.Success? ==> |r.value| == count
    decreases count
  {
    if count == 0 then Success([])
    else
      match TerminatorFrom(contents, start)
      case None => Failure(IndexOutOfBounds)
      case Some(z) =>
        Prepend([DecodeText(byteToChar, contents[start..z])], StringsFrom(contents, byteToChar, z + 1, count - 1))
  }

  /** A string table whose first scan finds a terminator at `z` continues one past `z`. */
  lemma StringsFromStep(contents: seq<byte>, byteToChar: map<byte, string>, start: int, count: nat)
    requires count > 0 && TerminatorFrom(contents, start).Some?
    ensures var z := TerminatorFrom(contents, start).value;
      StringsFrom(contents, byteToChar, start, count) ==
      Prepend([DecodeText(byteToChar, contents[start..z])], StringsFrom(contents, byteToChar, z + 1, count - 1))
  {
  }

  /** One turn of the `fetchStrings` loop keeps the strings read so far in front of the strings still to read. */
  lemma ReadStep(contents: seq<byte>, byteToChar: map<byte, string>, all: Result<seq<string>, Error>,
                 done: seq<string>, start: int, left: nat)
    requires left > 0 && TerminatorFrom(contents, start).Some?
    requires all == Prepend(done, StringsFrom(contents, byteToChar, start, left))
    ensures var z := TerminatorFrom(contents, start).value;
      all == Prepend(done + [DecodeText(byteToChar, contents[start..z])], StringsFrom(contents, byteToChar, z + 1, left - 1))
  {
    var z := TerminatorFrom(contents, start).value;
    StringsFromStep(contents, byteToChar, start, left);
    PrependPrepend(done, [DecodeText(byteToChar, contents[start..z])], StringsFrom(contents, byteToChar, z + 1, left - 1));
  }

  /** A string table whose first scan finds no terminator fails. */
  lemma StringsFromStops(contents: seq<byte>, byteToChar: map<byte, string>, start: int, count: nat)
    requires count > 0 && TerminatorFrom(contents, start).None?
    ensures StringsFrom(contents, byteToChar, start, count) == Failure(IndexOutOfBounds)
  {
  }

  /** The inner loop of `fetchStrings`: step from `start` while the byte read is not zero. */
  method ScanTerminator(contents: seq<byte>, start: int) returns (r: Option<nat>)
    ensures r == TerminatorFrom(contents, start)
  {
    var index := start;
    while true
      invariant start <= index && (start < index ==> 0 <= start)
      invariant NonZeroRun(contents, start, index)
      decreases |contents| - index
    {
      if index < 0 || index >= |contents| {
        TerminatorMissing(contents, start, index);
        return None;
      }
      if contents[index] == NULL_BYTE {
        break;
      }
      assert contents[index] != NULL_BYTE;
      index := index + 1;
    }
    TerminatorFound(contents, start, index);
    return Some(index);
  }

  /**
   * One turn of the `fetchStrings` loop from `start`: scan to the terminator,
   * decode the bytes before it, and step past it.
   */
  method NextString(contents: seq<byte>, byteToChar: map<byte, string>, start: int) returns (r: Option<(string, int)>)
    ensures r.Some? <==> TerminatorFrom(contents, start).Some?
    ensures r.Some? ==> var z := TerminatorFrom(contents, start).value;
      r.value == (DecodeText(byteToChar, contents[start..z]), z + 1)
  {
    var index := ScanTerminator(contents, start);
    if index.None? {
      return None;
    }
    return Some((DecodeText(byteToChar, contents[start..index.value]), index.value + 1));
  }

  /** `Rom.fetchStrings(offset, count)`; a count below one reads nothing. */
  method FetchStrings(rom: Rom, offset: int, count: int) returns (r: Result<seq<string>, Error>)
    ensures r == StringsFrom(rom.contents, rom.config.byteToChar, offset, if count < 0 then 0 else count)
  {
    r := ReadStrings(rom.contents, rom.config.byteToChar, offset, count);
  }

  /** The loop of `fetchStrings` over the image bytes and the decoding table. */
  method ReadStrings(contents: seq<byte>, byteToChar: map<byte, string>, offset: int, count: int)
    returns (r: Result<seq<string>, Error>)
    ensures r == StringsFrom(contents, byteToChar, offset, if count < 0 then 0 else count)
  {
    ghost var n: nat := if count < 0 then 0 else count;
    ghost var left: nat := n;
    var stringsList: seq<string> := [];
    var index := offset;
    var i := 1;
    PrependNothing(StringsFrom(contents, byteToChar, offset, n));
    while i <= count
      invariant 1 <= i && left == n - (i - 1)
      invariant StringsFrom(contents, byteToChar, offset, n) ==
        Prepend(stringsList, StringsFrom(contents, byteToChar, index, left))
    {
      assert left > 0;
      var next := NextString(contents, byteToChar, index);
      if next.None? {
        StringsFromStops(contents, byteToChar, index, left);
        return Failure(IndexOutOfBounds);
      }
      ReadStep(contents, byteToChar, StringsFrom(contents, byteToChar, offset, n), stringsList, index, left);
      stringsList := stringsList + [next.value.0];
      index := next.value.1;
      i := i + 1;
      left := left - 1;
    }
    assert left == 0;
    assert stringsList + [] == stringsList;
    return Success(stringsList);
  }

  /**
   * Where string `k` of a table read from `start` begins: `start` itself for the
   * first string, otherwise where string `k - 1` begins in the table read from
   * one past the first terminator.
   */
  function StringStart(contents: seq<byte>, start: int, k: nat): Option<int>
    decreases k
  {
    if k == 0 then Some(start)
    else
      match TerminatorFrom(contents, start)
      case None => None
      case Some(z) => StringStart(contents, z + 1, k - 1)
  }

  /** String `k + 1` starts one past the terminator of string `k`. */
  lemma {:induction false} StringStartNext(contents: seq<byte>, start: int, k: nat)
    requires StringStart(contents, start, k).Some?
    requires TerminatorFrom(contents, StringStart(contents, start, k).value).Some?
    ensures StringStart(contents, start, k + 1) ==
      Some(TerminatorFrom(contents, StringStart(contents, start, k).value).value + 1)
    decreases k
  {
    if k > 0 {
      var z := TerminatorFrom(contents, start).value;
      StringStartNext(contents, z + 1, k - 1);
    }
  }

  /** Dropping the first string of a table leaves the table read from one past its terminator. */
  lemma StringsFromTail(contents: seq<byte>, byteToChar: map<byte, string>, start: int, count: nat)
    requires count > 0 && StringsFrom(contents, byteToChar, start, count).Success?
    ensures TerminatorFrom(contents, start).Some?
    ensures var z := TerminatorFrom(contents, start).value;
      StringsFrom(contents, byteToChar, z + 1, count - 1).Success? &&
      StringsFrom(contents, byteToChar, start, count).value[1..] == StringsFrom(contents, byteToChar, z + 1, count - 1).value
  {
  }

  /** String `k` of a table is the decoding of the bytes from where it starts up to the next terminator. */
  lemma {:induction false} StringsAt(contents: seq<byte>, byteToChar: map<byte, string>, start: int, count: nat, k: nat)
    requires StringsFrom(contents, byteToChar, start, count).Success? && k < count
    ensures StringStart(contents, start, k).Some?
    ensures TerminatorFrom(contents, StringStart(contents, start, k).value).Some?
    ensures var p := StringStart(contents, start, k).value;
      var z := TerminatorFrom(contents, p).value;
      StringsFrom(contents, byteToChar, start, count).value[k] == DecodeText(byteToChar, contents[p..z])
    decreases k
  {
    StringsFromTail(contents, byteToChar, start, count);
    var z := TerminatorFrom(contents, start).value;
    var all := StringsFrom(contents, byteToChar, start, count).value;
    if k > 0 {
      StringsAt(contents, byteToChar, z + 1, count - 1, k - 1);
      assert StringStart(contents, start, k) == StringStart(contents, z + 1, k - 1);
      assert all[k] == all[1..][k - 1];
    } else {
      StringsFromStep(contents, byteToChar, start, count);
    }
  }

  /**
   * String `k` is the decoding of the bytes strictly between its start and the
   * next zero byte, none of which is zero, and string `k + 1` starts right after
   * that zero.
   */
  lemma StringsLayout(contents: seq<byte>, byteToChar: map<byte, string>, start: int, count: nat, k: nat)
    requires StringsFrom(contents, byteToChar, start, count).Success? && k < count
    ensures StringStart(contents, start, k).Some?
    ensures TerminatorFrom(contents, StringStart(contents, start, k).value).Some?
    ensures var p := StringStart(contents, start, k).value;
      var z := TerminatorFrom(contents, p).value;
      contents[z] == NULL_BYTE && NULL_BYTE !in contents[p..z] &&
      StringsFrom(contents, byteToChar, start, count).value[k] == DecodeText(byteToChar, contents[p..z]) &&
      StringStart(contents, start, k + 1) == Some(z + 1)
  {
    StringsAt(contents, byteToChar, start, count, k);
    TerminatorIsFirstZero(contents, StringStart(contents, start, k).value);
    StringStartNext(contents, start, k);
  }

  /** Reading `count` strings succeeds exactly when the scan finds `count` terminators in turn. */
  lemma {:induction false} StringsSucceedIff(contents: seq<byte>, byteToChar: map<byte, string>, start: int, count: nat)
    ensures StringsFrom(contents, byteToChar, start, count).Success? <==> StringStart(contents, start, count).Some?
    decreases count
  {
    if count > 0 && TerminatorFrom(contents, start).Some? {
      StringsSucceedIff(contents, byteToChar, TerminatorFrom(contents, start).value + 1, count - 1);
    }
  }

  /** A scan that reaches the end without a zero byte fails rather than returning a truncated string. */
  lemma StringsFailWithoutTerminator(contents: seq<byte>, byteToChar: map<byte, string>, start: int, count: nat)
    requires count >= 1 && 0 <= start
    requires forall j :: start <= j < |contents| ==> contents[j] != NULL_BYTE
    ensures StringsFrom(contents, byteToChar, start, count) == Failure(IndexOutOfBounds)
  {
  }

  // ---------------------------------------------------------------------
  // Magic spells

  /** One magic-spell record: its name and its eight data bytes in record order. */
  datatype MagicSpell = MagicSpell(
    name: string,
    hitRate: byte,
    effectivity: byte,
    element: byte,
    target: byte,
    effect: byte,
    graphic: byte,
    palette: byte,
    unused: byte)

  /** `MagicSpell.fromBytes`: bytes 0 to 7 become the fields in order; fewer than 8 bytes throw. */
  function FromBytes(name: string, byteData: seq<byte>): (r: Result<MagicSpell, Error>)
    ensures r.Success? <==> |byteData| >= 8
  {
    if |byteData| < 8 then Failure(IndexOutOfBounds)
    else
      Success(MagicSpell(name, byteData[0], byteData[1], byteData[2], byteData[3],
                         byteData[4], byteData[5], byteData[6], byteData[7]))
  }

  /** The eight data bytes of a spell, in record order. */
  function SpellBytes(s: MagicSpell): (d: seq<byte>)
    ensures |d| == 8
  {
    [s.hitRate, s.effectivity, s.element, s.target, s.effect, s.graphic, s.palette, s.unused]
  }

  /** `fromBytes` keeps the name and reads exactly the first eight bytes, in order. */
  lemma FromBytesReadsPrefix(name: string, byteData: seq<byte>)
    requires |byteData| >= 8
    ensures FromBytes(name, byteData).Success?
    ensures FromBytes(name, byteData).value.name == name
    ensures SpellBytes(FromBytes(name, byteData).value) == byteData[..8]
  {
  }

  /** Every spell is read back from its own name and data bytes. */
  lemma FromSpellBytes(s: MagicSpell)
    ensures FromBytes(s.name, SpellBytes(s)) == Success(s)
  {
  }

  /** The number of spells in the magic tables. */
  const SPELL_COUNT: int := 64

  /**
   * One step of the `forEachIndexed` loop: record `index` is copied from
   * `index * size + base`, computed with `Int` arithmetic, and read with name `name`.
   */
  function SpellAt(contents: seq<byte>, name: string, base: int32, size: int32, index: nat)
    : (r: Result<MagicSpell, Error>)
    ensures r.Success? ==> r.value.name == name
  {
    var offset := Wrap(Wrap(index * size) + base);
    match CopyOfRange(contents, offset, Wrap(offset + size))
    case Failure(e) => Failure(e)
    case Success(d) => FromBytes(name, d)
  }

  /** The records of the `forEachIndexed` loop from position `index` on, record `i` paired with name `i`. */
  function SpellsFrom(contents: seq<byte>, names: seq<string>, base: int32, size: int32, index: nat)
    : (r: Result<seq<MagicSpell>, Error>)
    requires index <= |names|
    ensures r.Success? ==> |r.value| == |names| - index
    decreases |names| - index
  {
    if index == |names| then Success([])
    else
      match SpellAt(contents, names[index], base, size, index)
      case Failure(e) => Failure(e)
      case Success(spell) => Prepend([spell], SpellsFrom(contents, names, base, size, index + 1))
  }

  /**
   * The three lookups `test` starts with: the names offset, the record table
   * offset and the record size, or nothing as soon as one key is absent.
   */
  function Lookups(config: Config): (r: Result<Option<(int32, int32, int32)>, Error>)
    ensures r.Success? && r.value.Some? ==>
      DataPointer(config, "magic_names") == Success(Some(r.value.value.0)) &&
      DataPointer(config, "magic_data") == Success(Some(r.value.value.1)) &&
      DataSize(config, "magic_data") == Some(r.value.value.2)
  {
    match DataPointer(config, "magic_names")
    case Failure(e) => Failure(e)
    case Success(None) => Success(None)
    case Success(Some(namesOffset)) =>
      match DataPointer(config, "magic_data")
      case Failure(e) => Failure(e)
      case Success(None) => Success(None)
      case Success(Some(dataOffset)) =>
        match DataSize(config, "magic_data")
        case None => Success(None)
        case Some(size) => Success(Some((namesOffset, dataOffset, size)))
  }

  /**
   * The body of `test` once the lookups are done: the bounds check on the whole
   * record table `[base, base + 64*size)`, the 64 names, then one record per name.
   */
  function SpellTable(contents: seq<byte>, byteToChar: map<byte, string>, namesOffset: int32, base: int32, size: int32)
    : (r: Result<seq<MagicSpell>, Error>)
    ensures r.Success? ==> |r.value| == SPELL_COUNT
  {
    match CopyOfRange(contents, base, Wrap(base + Wrap(SPELL_COUNT * size)))
    case Failure(e) => Failure(e)
    case Success(_) =>
      match StringsFrom(contents, byteToChar, namesOffset, SPELL_COUNT)
      case Failure(e) => Failure(e)
      case Success(names) => SpellsFrom(contents, names, base, size, 0)
  }

  /** What `Rom.test` produces, without its printing. */
  function MagicSpells(rom: Rom): Result<Option<seq<MagicSpell>>, Error> {
    match Lookups(rom.config)
    case Failure(e) => Failure(e)
    case Success(None) => Success(None)
    case Success(Some(offsets)) =>
      match SpellTable(rom.contents, rom.config.byteToChar, offsets.0, offsets.1, offsets.2)
      case Failure(e) => Failure(e)
      case Success(spells) => Success(Some(spells))
  }

  /** `Rom.test`: the three lookups, each returning early when its key is absent, then the spell table. */
  method Test(rom: Rom) returns (r: Result<Option<seq<MagicSpell>>, Error>)
    ensures r == MagicSpells(rom)
  {
    var magicNamesOffset := DataPointer(rom.config, "magic_names");
    if magicNamesOffset.Failure? {
      return Failure(magicNamesOffset.error);
    }
    if magicNamesOffset.value.None? {
      return Success(None);
    }
    var magicDataOffset := DataPointer(rom.config, "magic_data");
    if magicDataOffset.Failure? {
      return Failure(magicDataOffset.error);
    }
    if magicDataOffset.value.None? {
      return Success(None);
    }
    var magicDataSize := DataSize(rom.config, "magic_data");
    if magicDataSize.None? {
      return Success(None);
    }
    var spells := ReadSpells(rom, magicNamesOffset.value.value, magicDataOffset.value.value, magicDataSize.value);
    if spells.Failure? {
      return Failure(spells.error);
    }
    return Success(Some(spells.value));
  }

  /** The rest of `Rom.test`: the table bounds check, `fetchStrings(namesOffset, 64)`, then the `forEachIndexed` loop. */
  method ReadSpells(rom: Rom, namesOffset: int32, base: int32, size: int32) returns (r: Result<seq<MagicSpell>, Error>)
    ensures r == SpellTable(rom.contents, rom.config.byteToChar, namesOffset, base, size)
  {
    var magicData := CopyOfRange(rom.contents, base, Wrap(base + Wrap(SPELL_COUNT * size)));
    ghost var table := SpellTable(rom.contents, rom.config.byteToChar, namesOffset, base, size);
    if magicData.Failure? {
      assert table == Failure(magicData.error);
      return Failure(magicData.error);
    }
    var names := FetchStrings(rom, namesOffset, SPELL_COUNT);
    if names.Failure? {
      assert table == Failure(names.error);
      return Failure(names.error);
    }
    assert table == SpellsFrom(rom.contents, names.value, base, size, 0);
    r := ReadRecords(rom.contents, names.value, base, size);
  }

  /** The `forEachIndexed` loop of `Rom.test`: one record per name, in order, stopping at the first failure. */
  method ReadRecords(contents: seq<byte>, names: seq<string>, base: int32, size: int32)
    returns (r: Result<seq<MagicSpell>, Error>)
    ensures r == SpellsFrom(contents, names, base, size, 0)
  {
    var spells: seq<MagicSpell> := [];
    PrependNothing(SpellsFrom(contents, names, base, size, 0));
    for index := 0 to |names|
      invariant SpellsFrom(contents, names, base, size, 0) ==
        Prepend(spells, SpellsFrom(contents, names, base, size, index))
    {
      var offset := Wrap(Wrap(index * size) + base);
      var record := CopyOfRange(contents, offset, Wrap(offset + size));
      if record.Failure? {
        assert SpellAt(contents, names[index], base, size, index) == Failure(record.error);
        return Failure(record.error);
      }
      var magic := FromBytes(names[index], record.value);
      assert SpellAt(contents, names[index], base, size, index) == magic;
      if magic.Failure? {
        return Failure(magic.error);
      }
      PrependPrepend(spells, [magic.value], SpellsFrom(contents, names, base, size, index + 1));
      spells := spells + [magic.value];
    }
    assert spells + [] == spells;
    return Success(spells);
  }

  /** `test` returns early, producing nothing, exactly when one of its three lookups is missing. */
  lemma MagicSpellsNeedAllLookups(rom: Rom)
    ensures MagicSpells(rom) == Success(None) <==>
      DataPointer(rom.config, "magic_names") == Success(None) ||
      (DataPointer(rom.config, "magic_names").Success? &&
       DataPointer(rom.config, "magic_data") == Success(None)) ||
      (DataPointer(rom.config, "magic_names").Success? &&
       DataPointer(rom.config, "magic_data").Success? &&
       DataSize(rom.config, "magic_data").None?)
  {
  }

  lemma MulBound(i: nat, size: int)
    requires i <= SPELL_COUNT && 0 <= size
    ensures 0 <= i * size <= SPELL_COUNT * size
    ensures i * size + size == (i + 1) * size
  {
  }

  /** Within a table that fits in an `Int`, the offsets of record `i` do not wrap. */
  lemma RecordOffsets(base: int32, size: int32, i: nat)
    requires i < SPELL_COUNT && 0 <= base && 0 <= size && base + SPELL_COUNT * size <= INT_MAX
    ensures Wrap(Wrap(i * size) + base) == base + i * size
    ensures Wrap(base + i * size + size) == base + i * size + size
  {
    MulBound(i, size);
    MulBound(i + 1, size);
    WrapInRange(i * size);
    WrapInRange(i * size + base);
    WrapInRange(i * size + base + size);
  }

  /** The bytes of record `i` of a table at `base` with records `size` bytes wide. */
  function Record(contents: seq<byte>, base: int, size: int, i: nat): (d: seq<byte>)
    requires i < SPELL_COUNT && 0 <= base && 0 <= size && base + SPELL_COUNT * size <= |contents|
    ensures |d| == size
  {
    MulBound(i, size);
    MulBound(i + 1, size);
    contents[base + i * size .. base + (i + 1) * size]
  }

  /** A record inside a table that fits in the image is copied without wrap-around and read whole. */
  lemma SpellAtRecord(contents: seq<byte>, name: string, base: int32, size: int32, i: nat)
    requires i < SPELL_COUNT && 0 <= base && 0 <= size && base + SPELL_COUNT * size <= |contents| <= INT_MAX
    ensures SpellAt(contents, name, base, size, i) == FromBytes(name, Record(contents, base, size, i))
  {
    RecordOffsets(base, size, i);
    MulBound(i, size);
    MulBound(i + 1, size);
    var lo := base + i * size;
    var hi := lo + size;
    assert hi == base + (i + 1) * size;
    assert Record(contents, base, size, i) == contents[lo..hi];
    assert Wrap(Wrap(i * size) + base) == lo;
    assert Wrap(lo + size) == hi;
  }

  /** The bounds check on the whole table passes when the table lies inside the image. */
  lemma TableInBounds(contents: seq<byte>, base: int32, size: int32)
    requires 0 <= base && 0 <= size && base + SPELL_COUNT * size <= |contents| <= INT_MAX
    ensures CopyOfRange(contents, base, Wrap(base + Wrap(SPELL_COUNT * size))).Success?
  {
    WrapInRange(SPELL_COUNT * size);
    WrapInRange(base + SPELL_COUNT * size);
  }

  /** A record of at least eight bytes becomes a spell with the given name and the record's first eight bytes. */
  lemma SpellAtReadsRecord(contents: seq<byte>, name: string, base: int32, size: int32, i: nat)
    requires i < SPELL_COUNT && 0 <= base && 8 <= size && base + SPELL_COUNT * size <= |contents| <= INT_MAX
    ensures SpellAt(contents, name, base, size, i).Success?
    ensures SpellAt(contents, name, base, size, i).value.name == name
    ensures SpellBytes(SpellAt(contents, name, base, size, i).value) == Record(contents, base, size, i)[..8]
  {
    SpellAtRecord(contents, name, base, size, i);
    FromBytesReadsPrefix(name, Record(contents, base, size, i));
  }

  /** When every step from `index` on succeeds, the loop yields exactly the records of those steps, in order. */
  lemma {:induction false} SpellsFromSteps(contents: seq<byte>, names: seq<string>, base: int32, size: int32, index: nat)
    requires index <= |names|
    requires forall i :: index <= i < |names| ==> SpellAt(contents, names[i], base, size, i).Success?
    ensures SpellsFrom(contents, names, base, size, index).Success?
    ensures forall i :: index <= i < |names| ==>
      SpellsFrom(contents, names, base, size, index).value[i - index] == SpellAt(contents, names[i], base, size, i).value
    decreases |names| - index
  {
    if index < |names| {
      SpellsFromSteps(contents, names, base, size, index + 1);
      var rest := SpellsFrom(contents, names, base, size, index + 1).value;
      var all := SpellsFrom(contents, names, base, size, index).value;
      assert all == [SpellAt(contents, names[index], base, size, index).value] + rest;
      forall i | index < i < |names|
        ensures all[i - index] == SpellAt(contents, names[i], base, size, i).value
      {
        assert all[i - index] == rest[i - (index + 1)];
      }
    }
  }

  /** With records at least 8 bytes wide inside the image, record `i` becomes a spell named `names[i]`. */
  lemma SpellsAreRecords(contents: seq<byte>, names: seq<string>, base: int32, size: int32)
    requires |names| == SPELL_COUNT
    requires 0 <= base && 8 <= size && base + SPELL_COUNT * size <= |contents| <= INT_MAX
    ensures SpellsFrom(contents, names, base, size, 0).Success?
    ensures var spells := SpellsFrom(contents, names, base, size, 0).value;
      forall i :: 0 <= i < SPELL_COUNT ==>
        spells[i].name == names[i] &&
        SpellBytes(spells[i]) == Record(contents, base, size, i)[..8]
  {
    forall i | 0 <= i < SPELL_COUNT
      ensures SpellAt(contents, names[i], base, size, i).Success?
      ensures SpellAt(contents, names[i], base, size, i).value.name == names[i]
      ensures SpellBytes(SpellAt(contents, names[i], base, size, i).value) == Record(contents, base, size, i)[..8]
    {
      SpellAtReadsRecord(contents, names[i], base, size, i);
    }
    SpellsFromSteps(contents, names, base, size, 0);
  }

  /**
   * With records at least 8 bytes wide, the whole table in bounds and the names
   * readable, the table holds 64 spells: spell `i` carries name `i` and the first
   * eight bytes of record `i`.
   */
  lemma SpellTableAreSlices(contents: seq<byte>, byteToChar: map<byte, string>, namesOffset: int32, base: int32, size: int32)
    requires 0 <= base && 8 <= size && base + SPELL_COUNT * size <= |contents| <= INT_MAX
    requires StringsFrom(contents, byteToChar, namesOffset, SPELL_COUNT).Success?
    ensures SpellTable(contents, byteToChar, namesOffset, base, size).Success?
    ensures var spells := SpellTable(contents, byteToChar, namesOffset, base, size).value;
      var names := StringsFrom(contents, byteToChar, namesOffset, SPELL_COUNT).value;
      forall i :: 0 <= i < SPELL_COUNT ==>
        spells[i].name == names[i] &&
        SpellBytes(spells[i]) == Record(contents, base, size, i)[..8]
  {
    var names := StringsFrom(contents, byteToChar, namesOffset, SPELL_COUNT).value;
    TableInBounds(contents, base, size);
    SpellsAreRecords(contents, names, base, size);
    assert SpellTable(contents, byteToChar, namesOffset, base, size) == SpellsFrom(contents, names, base, size, 0);
  }

  /** With all three lookups present, `test` produces the spell table they locate. */
  lemma MagicSpellsAreSlices(rom: Rom, namesOffset: int32, base: int32, size: int32)
    requires DataPointer(rom.config, "magic_names") == Success(Some(namesOffset))
    requires DataPointer(rom.config, "magic_data") == Success(Some(base))
    requires DataSize(rom.config, "magic_data") == Some(size)
    requires 0 <= base && 8 <= size && base + SPELL_COUNT * size <= |rom.contents| <= INT_MAX
    requires StringsFrom(rom.contents, rom.config.byteToChar, namesOffset, SPELL_COUNT).Success?
    ensures MagicSpells(rom).Success? && MagicSpells(rom).value.Some?
    ensures var spells := MagicSpells(rom).value.value;
      var names := StringsFrom(rom.contents, rom.config.byteToChar, namesOffset, SPELL_COUNT).value;
      |spells| == SPELL_COUNT &&
      forall i :: 0 <= i < SPELL_COUNT ==>
        spells[i].name == names[i] &&
        SpellBytes(spells[i]) == Record(rom.contents, base, size, i)[..8]
  {
    assert Lookups(rom.config) == Success(Some((namesOffset, base, size)));
    SpellTableAreSlices(rom.contents, rom.config.byteToChar, namesOffset, base, size);
  }

  /** From a non-negative start, an `Int` sum either does not wrap or wraps to a negative value. */
  lemma WrapOfSum(o: int32, size: int32)
    ensures 0 <= o && o + size <= INT_MAX ==> Wrap(o + size) == o + size
    ensures 0 <= o && INT_MAX < o + size ==> Wrap(o + size) < 0
  {
    if 0 <= o && INT_MAX < o + size {
      assert (o + size) % 0x1_0000_0000 == o + size;
    } else if INT_MIN <= o + size <= INT_MAX {
      WrapInRange(o + size);
    }
  }

  /**
   * An `Int` end offset `o + size` that the record copy accepts, from a
   * non-negative start `o`, did not wrap: the record width is non-negative.
   */
  lemma RecordEndNoWrap(o: int32, size: int32)
    requires 0 <= o <= Wrap(o + size)
    ensures 0 <= size && Wrap(o + size) == o + size
  {
    WrapOfSum(o, size);
  }

  /**
   * When the loop succeeds from record `index` on, and the records before it
   * lie inside the image, all `|names|` records lie inside the image.
   */
  lemma {:induction false} SpellsFromFits(contents: seq<byte>, names: seq<string>, base: int32, size: int32, index: nat)
    requires index <= |names| && |contents| <= INT_MAX
    requires 0 <= base && 0 <= size && base + index * size <= |contents|
    ensures SpellsFrom(contents, names, base, size, index).Success? ==> base + |names| * size <= |contents|
    decreases |names| - index
  {
    if index < |names| && SpellsFrom(contents, names, base, size, index).Success? {
      assert 0 <= index * size;
      WrapInRange(index * size);
      WrapInRange(index * size + base);
      var o := base + index * size;
      assert SpellAt(contents, names[index], base, size, index).Success?;
      assert CopyOfRange(contents, o, Wrap(o + size)).Success?;
      RecordEndNoWrap(o, size);
      assert (index + 1) * size == index * size + size;
      SpellsFromFits(contents, names, base, size, index + 1);
    }
  }

  /** A loop whose first record is copied reads that record from a start of `base`, and its width does not wrap. */
  lemma SpellTableFirstRecord(contents: seq<byte>, names: seq<string>, base: int32, size: int32)
    requires |names| > 0
    requires SpellsFrom(contents, names, base, size, 0).Success?
    ensures 0 <= base && 0 <= size && base + size <= |contents|
  {
    assert SpellAt(contents, names[0], base, size, 0).Success?;
    WrapInRange(0 * size);
    WrapInRange(base);
    assert CopyOfRange(contents, base, Wrap(base + size)).Success?;
    RecordEndNoWrap(base, size);
  }

  /**
   * A table read succeeds only when the whole record table `[base, base + 64*size)`
   * lies inside the image, even where `64*size` or `base + 64*size` wraps in `Int`
   * arithmetic: a wrapped bounds check lets the read through, but a later record
   * copy then runs past the end.
   */
  lemma SpellTableFits(contents: seq<byte>, byteToChar: map<byte, string>, namesOffset: int32, base: int32, size: int32)
    requires |contents| <= INT_MAX
    ensures SpellTable(contents, byteToChar, namesOffset, base, size).Success? ==>
      0 <= base && 0 <= size && base + SPELL_COUNT * size <= |contents|
  {
    if SpellTable(contents, byteToChar, namesOffset, base, size).Success? {
      var names := StringsFrom(contents, byteToChar, namesOffset, SPELL_COUNT).value;
      assert SpellTable(contents, byteToChar, namesOffset, base, size) == SpellsFrom(contents, names, base, size, 0);
      SpellTableFirstRecord(contents, names, base, size);
      SpellsFromFits(contents, names, base, size, 0);
    }
  }

  /** When the record table `[base, base + 64*size)` does not fit in the image, the table read fails. */
  lemma SpellTableOutOfBounds(contents: seq<byte>, byteToChar: map<byte, string>, namesOffset: int32, base: int32, size: int32)
    requires |contents| <= INT_MAX
    requires base < 0 || size < 0 || base + SPELL_COUNT * size > |contents|
    ensures SpellTable(contents, byteToChar, namesOffset, base, size).Failure?
  {
    SpellTableFits(contents, byteToChar, namesOffset, base, size);
  }

  lemma SpellsFromShortRecord(contents: seq<byte>, names: seq<string>, base: int32, size: int32)
    requires |names| > 0 && 0 <= base && 0 <= size < 8 && base + size <= |contents| <= INT_MAX
    ensures SpellsFrom(contents, names, base, size, 0).Failure?
  {
    var offset := Wrap(Wrap(0 * size) + base);
    assert offset == base by { WrapInRange(0); WrapInRange(base); }
    var to := Wrap(offset + size);
    assert to == base + size by { WrapInRange(base + size); }
    var d := contents[base..base + size];
    assert CopyOfRange(contents, offset, to) == Success(d);
    assert FromBytes(names[0], d).Failure?;
  }

  /** Records narrower than the eight bytes `fromBytes` reads make the table read fail. */
  lemma SpellTableShortRecords(contents: seq<byte>, byteToChar: map<byte, string>, namesOffset: int32, base: int32, size: int32)
    requires 0 <= base && 0 <= size < 8 && base + SPELL_COUNT * size <= |contents| <= INT_MAX
    ensures SpellTable(contents, byteToChar, namesOffset, base, size).Failure?
  {
    TableInBounds(contents, base, size);
    match StringsFrom(contents, byteToChar, namesOffset, SPELL_COUNT)
    case Failure(_) =>
    case Success(names) =>
      assert SpellTable(contents, byteToChar, namesOffset, base, size) == SpellsFrom(contents, names, base, size, 0);
      SpellsFromShortRecord(contents, names, base, size);
  }
}
