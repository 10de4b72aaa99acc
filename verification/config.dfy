/**
 * The text codec of `Config`: the two lookup tables built from the ordered text
 * table, the greedy encoder, the decoder, and the offset and size lookups with
 * their prefix-dispatched integer parser.
 */
module Configuration {
  import opened Wrappers
  import opened KotlinLib

  /** The string terminator, appended by the encoder and skipped by the decoder. */
  const NULL_BYTE: byte := 0

  /** What `acc + null` appends in Kotlin when a byte has no token. */
  const NULL_TEXT: string := "null"

  /** One text-table entry: a hex byte key (no `0x` prefix) and the token it stands for. */
  type Entry = (string, string)

  /** A configuration as the codec sees it once its tables are built. */
  datatype Config = Config(
    byteToChar: map<byte, string>,
    charsToByte: map<string, byte>,
    dataPointers: map<string, string>,
    structureSizes: map<string, int32>)

  // ---------------------------------------------------------------------
  // Table construction

  predicate KeyParses(e: Entry) {
    ToUByte(e.0, 16).Some?
  }

  predicate KeysParse(t: seq<Entry>) {
    forall i :: 0 <= i < |t| ==> KeyParses(t[i])
  }

  /** `key.toUByte(16)` for an entry whose key parses. */
  function KeyByte(e: Entry): byte
    requires KeyParses(e)
  {
    ToUByte(e.0, 16).value
  }

  /** An entry with its key parsed: the byte and its token. */
  type Pair = (byte, string)

  /** The entries of `t` with their keys parsed, in order. */
  function Parsed(t: seq<Entry>): (p: seq<Pair>)
    requires KeysParse(t)
    ensures |p| == |t|
    ensures forall i :: 0 <= i < |t| ==> p[i] == (KeyByte(t[i]), t[i].1)
  {
    seq(|t|, i requires 0 <= i < |t| => (KeyByte(t[i]), t[i].1))
  }

  /** No two pairs name the same byte. */
  predicate KeysDistinct(p: seq<Pair>) {
    forall i, j :: 0 <= i < j < |p| ==> p[i].0 != p[j].0
  }

  /** No pair names the terminator byte. */
  predicate NoTerminatorKey(p: seq<Pair>) {
    forall i :: 0 <= i < |p| ==> p[i].0 != NULL_BYTE
  }

  /** `byteToChar` after the pairs of `p` are written in order, each one unconditionally. */
  function ByteToCharOf(p: seq<Pair>): map<byte, string>
    decreases |p|
  {
    if p == [] then map[]
    else ByteToCharOf(p[..|p| - 1])[p[|p| - 1].0 := p[|p| - 1].1]
  }

  /** `charsToByte` after the pairs of `p` are written in order, each one only if its token is new. */
  function CharsToByteOf(p: seq<Pair>): map<string, byte>
    decreases |p|
  {
    if p == [] then map[]
    else
      var m := CharsToByteOf(p[..|p| - 1]);
      var e := p[|p| - 1];
      if e.1 in m then m else m[e.1 := e.0]
  }

  /** The bytes `byteToChar` defines are exactly the bytes some key names. */
  lemma {:induction false} ByteToCharDomain(p: seq<Pair>, b: byte)
    ensures b in ByteToCharOf(p) <==> exists j :: 0 <= j < |p| && p[j].0 == b
    decreases |p|
  {
    if p != [] {
      var q := p[..|p| - 1];
      ByteToCharDomain(q, b);
      if b in ByteToCharOf(q) {
        var j :| 0 <= j < |q| && q[j].0 == b;
        assert p[j].0 == b;
      }
      if exists j :: 0 <= j < |p| && p[j].0 == b {
        var j :| 0 <= j < |p| && p[j].0 == b;
        if j < |q| { assert q[j] == p[j]; }
      }
    }
  }

  /** Last write wins: a byte decodes to the token of the last pair that names it. */
  lemma {:induction false} ByteToCharLastWins(p: seq<Pair>, i: nat)
    requires i < |p|
    requires forall j :: i < j < |p| ==> p[j].0 != p[i].0
    ensures p[i].0 in ByteToCharOf(p)
    ensures ByteToCharOf(p)[p[i].0] == p[i].1
    decreases |p|
  {
    if i < |p| - 1 {
      var q := p[..|p| - 1];
      assert q[i] == p[i];
      forall j | i < j < |q| ensures q[j].0 != q[i].0 {
        assert q[j] == p[j];
      }
      ByteToCharLastWins(q, i);
      assert p[|p| - 1].0 != p[i].0;
      assert ByteToCharOf(p) == ByteToCharOf(q)[p[|p| - 1].0 := p[|p| - 1].1];
    } else {
      assert ByteToCharOf(p) == ByteToCharOf(p[..|p| - 1])[p[i].0 := p[i].1];
    }
  }

  /** The tokens `charsToByte` defines are exactly the tokens of the pairs. */
  lemma {:induction false} CharsToByteDomain(p: seq<Pair>, tok: string)
    ensures tok in CharsToByteOf(p) <==> exists j :: 0 <= j < |p| && p[j].1 == tok
    decreases |p|
  {
    if p != [] {
      var q := p[..|p| - 1];
      CharsToByteDomain(q, tok);
      if tok in CharsToByteOf(q) {
        var j :| 0 <= j < |q| && q[j].1 == tok;
        assert p[j].1 == tok;
      }
      if exists j :: 0 <= j < |p| && p[j].1 == tok {
        var j :| 0 <= j < |p| && p[j].1 == tok;
        if j < |q| { assert q[j] == p[j]; }
      }
    }
  }

  /** First write wins: a token encodes to the byte of the first pair that has it. */
  lemma {:induction false} CharsToByteFirstWins(p: seq<Pair>, i: nat)
    requires i < |p|
    requires forall j :: 0 <= j < i ==> p[j].1 != p[i].1
    ensures p[i].1 in CharsToByteOf(p)
    ensures CharsToByteOf(p)[p[i].1] == p[i].0
    decreases |p|
  {
    var q := p[..|p| - 1];
    if i == |p| - 1 {
      forall j | 0 <= j < |q| ensures q[j].1 != p[i].1 {
        assert q[j] == p[j];
      }
      CharsToByteDomain(q, p[i].1);
    } else {
      assert q[i] == p[i];
      forall j | 0 <= j < i ensures q[j].1 != q[i].1 {
        assert q[j] == p[j];
      }
      CharsToByteFirstWins(q, i);
    }
  }

  /** Every byte `charsToByte` hands out is the byte of a pair carrying that token. */
  lemma {:induction false} CharsToByteSource(p: seq<Pair>, tok: string)
    requires tok in CharsToByteOf(p)
    ensures exists i :: 0 <= i < |p| && p[i] == (CharsToByteOf(p)[tok], tok)
    decreases |p|
  {
    var q := p[..|p| - 1];
    if tok in CharsToByteOf(q) {
      CharsToByteSource(q, tok);
      var i :| 0 <= i < |q| && q[i] == (CharsToByteOf(q)[tok], tok);
      assert p[i] == q[i];
    } else {
      assert p[|p| - 1] == (CharsToByteOf(p)[tok], tok);
    }
  }

  /** The two tables decode what they encode, and no token is encoded as the terminator. */
  predicate TablesInverse(byteToChar: map<byte, string>, charsToByte: map<string, byte>) {
    forall tok :: tok in charsToByte ==>
      charsToByte[tok] != NULL_BYTE && charsToByte[tok] in byteToChar && byteToChar[charsToByte[tok]] == tok
  }

  /** Distinct keys other than the terminator make the two tables inverse. */
  lemma TablesAreInverse(p: seq<Pair>)
    requires KeysDistinct(p) && NoTerminatorKey(p)
    ensures TablesInverse(ByteToCharOf(p), CharsToByteOf(p))
  {
    forall tok | tok in CharsToByteOf(p)
      ensures CharsToByteOf(p)[tok] != NULL_BYTE
      ensures CharsToByteOf(p)[tok] in ByteToCharOf(p) && ByteToCharOf(p)[CharsToByteOf(p)[tok]] == tok
    {
      CharsToByteSource(p, tok);
      var i :| 0 <= i < |p| && p[i] == (CharsToByteOf(p)[tok], tok);
      ByteToCharLastWins(p, i);
    }
  }

  lemma ByteToCharStep(p: seq<Pair>, e: Pair)
    ensures ByteToCharOf(p + [e]) == ByteToCharOf(p)[e.0 := e.1]
  {
    assert (p + [e])[..|p|] == p;
  }

  lemma CharsToByteStep(p: seq<Pair>, e: Pair)
    ensures CharsToByteOf(p + [e]) ==
      if e.1 in CharsToByteOf(p) then CharsToByteOf(p) else CharsToByteOf(p)[e.1 := e.0]
  {
    assert (p + [e])[..|p|] == p;
  }

  /** The `byteToChar` initialiser: one pass over the text table, overwriting. */
  method BuildByteToChar(textTable: seq<Entry>) returns (r: Result<map<byte, string>, Error>)
    ensures r.Success? <==> KeysParse(textTable)
    ensures r.Success? ==> r.value == ByteToCharOf(Parsed(textTable))
  {
    var m: map<byte, string> := map[];
    ghost var pairs: seq<Pair> := [];
    var i := 0;
    while i < |textTable|
      invariant 0 <= i <= |textTable| && |pairs| == i
      invariant forall j :: 0 <= j < i ==> KeyParses(textTable[j]) && pairs[j] == (KeyByte(textTable[j]), textTable[j].1)
      invariant m == ByteToCharOf(pairs)
    {
      var key := ToUByte(textTable[i].0, 16);
      if key.None? {
        assert !KeyParses(textTable[i]);
        return Failure(NumberFormat);
      }
      ByteToCharStep(pairs, (key.value, textTable[i].1));
      assert KeyParses(textTable[i]) && KeyByte(textTable[i]) == key.value;
      pairs := pairs + [(key.value, textTable[i].1)];
      m := m[key.value := textTable[i].1];
      i := i + 1;
    }
    assert pairs == Parsed(textTable);
    return Success(m);
  }

  /** The `charsToByte` initialiser: one pass over the text table, keeping the first byte per token. */
  method BuildCharsToByte(textTable: seq<Entry>) returns (r: Result<map<string, byte>, Error>)
    ensures r.Success? <==> KeysParse(textTable)
    ensures r.Success? ==> r.value == CharsToByteOf(Parsed(textTable))
  {
    var m: map<string, byte> := map[];
    ghost var pairs: seq<Pair> := [];
    var i := 0;
    while i < |textTable|
      invariant 0 <= i <= |textTable| && |pairs| == i
      invariant forall j :: 0 <= j < i ==> KeyParses(textTable[j]) && pairs[j] == (KeyByte(textTable[j]), textTable[j].1)
      invariant m == CharsToByteOf(pairs)
    {
      var key := ToUByte(textTable[i].0, 16);
      if key.None? {
        assert !KeyParses(textTable[i]);
        return Failure(NumberFormat);
      }
      CharsToByteStep(pairs, (key.value, textTable[i].1));
      assert KeyParses(textTable[i]) && KeyByte(textTable[i]) == key.value;
      pairs := pairs + [(key.value, textTable[i].1)];
      if textTable[i].1 !in m {
        m := m[textTable[i].1 := key.value];
      }
      i := i + 1;
    }
    assert pairs == Parsed(textTable);
    return Success(m);
  }

  /** A configuration with both tables built from `textTable` in its order. */
  method NewConfig(textTable: seq<Entry>, dataPointers: map<string, string>, structureSizes: map<string, int32>)
    returns (r: Result<Config, Error>)
    ensures r.Success? <==> KeysParse(textTable)
    ensures r.Success? ==>
      r.value == Config(ByteToCharOf(Parsed(textTable)), CharsToByteOf(Parsed(textTable)), dataPointers, structureSizes)
  {
    var byteToChar := BuildByteToChar(textTable);
    var charsToByte := BuildCharsToByte(textTable);
    if byteToChar.Success? && charsToByte.Success? {
      r := Success(Config(byteToChar.value, charsToByte.value, dataPointers, structureSizes));
    } else {
      r := Failure(NumberFormat);
    }
  }

  // ---------------------------------------------------------------------
  // Encoding

  /**
   * The bytes the encoder emits for `s` before the terminator: a two-character
   * token where one is defined, else a one-character token, else failure.
   */
  function EncodeBody(charsToByte: map<string, byte>, s: string): Result<seq<byte>, Error>
    decreases |s|
  {
    if s == [] then Success([])
    else if |s| >= 2 && s[..2] in charsToByte then
      Prepend([charsToByte[s[..2]]], EncodeBody(charsToByte, s[2..]))
    else if [s[0]] in charsToByte then
      Prepend([charsToByte[[s[0]]]], EncodeBody(charsToByte, s[1..]))
    else
      Failure(NoEncodingFor(s[0]))
  }

  /** What `encodeText` returns: the encoded body and one terminator. */
  function Encode(charsToByte: map<string, byte>, text: string): Result<seq<byte>, Error> {
    match EncodeBody(charsToByte, text)
    case Success(body) => Success(body + [NULL_BYTE])
    case Failure(e) => Failure(e)
  }

  /**
   * `encodeText`: fills a buffer of `|text| + 1` bytes left to right, then writes
   * the terminator and returns the filled prefix.
   */
  method EncodeText(charsToByte: map<string, byte>, text: string) returns (r: Result<seq<byte>, Error>)
    ensures r == Encode(charsToByte, text)
  {
    var bytes := new byte[|text| + 1];
    var index := 0;
    var byteIndex := 0;
    assert text[index..] == text;
    PrependNothing(EncodeBody(charsToByte, text));
    while index < |text|
      invariant 0 <= byteIndex <= index <= |text|
      invariant EncodeBody(charsToByte, text) ==
        Prepend(bytes[..byteIndex], EncodeBody(charsToByte, text[index..]))
    {
      ghost var rest := text[index..];
      ghost var done := bytes[..byteIndex];
      ghost var used: nat;
      var twoChars: Option<byte> := None;
      if index + 1 < |text| && text[index..index + 2] in charsToByte {
        twoChars := Some(charsToByte[text[index..index + 2]]);
      }
      if twoChars.Some? {
        assert rest[..2] == text[index..index + 2];
        bytes[byteIndex] := twoChars.value;
        index := index + 1;
        used := 2;
      } else {
        assert index + 1 < |text| ==> rest[..2] == text[index..index + 2];
        assert rest[0] == text[index];
        if [text[index]] !in charsToByte {
          return Failure(NoEncodingFor(text[index]));
        }
        bytes[byteIndex] := charsToByte[[text[index]]];
        used := 1;
      }
      assert EncodeBody(charsToByte, rest) == Prepend([bytes[byteIndex]], EncodeBody(charsToByte, rest[used..]));
      assert rest[used..] == text[index + 1..];
      assert bytes[..byteIndex + 1] == done + [bytes[byteIndex]];
      PrependPrepend(done, [bytes[byteIndex]], EncodeBody(charsToByte, rest[used..]));
      byteIndex := byteIndex + 1;
      index := index + 1;
    }
    assert text[index..] == [];
    ghost var body := bytes[..byteIndex];
    assert body + [] == body;
    bytes[byteIndex] := NULL_BYTE;
    assert bytes[..byteIndex + 1] == body + [NULL_BYTE];
    return Success(bytes[..byteIndex + 1]);
  }

  /** Each emitted byte consumes one or two characters. */
  lemma {:induction false} EncodeBodyLength(charsToByte: map<string, byte>, s: string)
    requires EncodeBody(charsToByte, s).Success?
    ensures (|s| + 1) / 2 <= |EncodeBody(charsToByte, s).value| <= |s|
    decreases |s|
  {
    if s != [] {
      if |s| >= 2 && s[..2] in charsToByte {
        EncodeBodyLength(charsToByte, s[2..]);
      } else {
        EncodeBodyLength(charsToByte, s[1..]);
      }
    }
  }

  /**
   * The buffer-size comment of `encodeText`: the result ends in the terminator
   * and is at most one byte longer than the text, and at least half as long.
   */
  lemma EncodeShape(charsToByte: map<string, byte>, text: string)
    requires Encode(charsToByte, text).Success?
    ensures var r := Encode(charsToByte, text).value;
      |r| >= 1 && r[|r| - 1] == NULL_BYTE && (|text| + 1) / 2 + 1 <= |r| <= |text| + 1
  {
    EncodeBodyLength(charsToByte, text);
  }

  lemma EncodeEmpty(charsToByte: map<string, byte>)
    ensures Encode(charsToByte, "") == Success([NULL_BYTE])
  {
    assert EncodeBody(charsToByte, "") == Success([]);
    assert [] + [NULL_BYTE] == [NULL_BYTE];
  }

  /** Greedy match: a defined two-character token is taken before its single characters. */
  lemma EncodePrefersPair(charsToByte: map<string, byte>, a: char, b: char, rest: string)
    requires [a, b] in charsToByte
    ensures EncodeBody(charsToByte, [a, b] + rest) ==
      Prepend([charsToByte[[a, b]]], EncodeBody(charsToByte, rest))
  {
    var s := [a, b] + rest;
    assert s[..2] == [a, b] && s[2..] == rest;
  }

  /** Encoding cannot fail when every character of the text is itself a token. */
  lemma {:induction false} EncodeSucceedsWhenCharsMapped(charsToByte: map<string, byte>, s: string)
    requires forall i :: 0 <= i < |s| ==> [s[i]] in charsToByte
    ensures EncodeBody(charsToByte, s).Success?
    decreases |s|
  {
    if s != [] {
      if |s| >= 2 && s[..2] in charsToByte {
        assert forall i :: 0 <= i < |s| - 2 ==> s[2..][i] == s[i + 2];
        EncodeSucceedsWhenCharsMapped(charsToByte, s[2..]);
      } else {
        assert forall i :: 0 <= i < |s| - 1 ==> s[1..][i] == s[i + 1];
        EncodeSucceedsWhenCharsMapped(charsToByte, s[1..]);
      }
    }
  }

  /** A failure names a character of the text that has no one-character token. */
  lemma {:induction false} EncodeFailureNamesChar(charsToByte: map<string, byte>, s: string)
    requires EncodeBody(charsToByte, s).Failure?
    ensures EncodeBody(charsToByte, s).error.NoEncodingFor?
    ensures var c := EncodeBody(charsToByte, s).error.ch; c in s && [c] !in charsToByte
    decreases |s|
  {
    if |s| >= 2 && s[..2] in charsToByte {
      EncodeFailureNamesChar(charsToByte, s[2..]);
      assert EncodeBody(charsToByte, s[2..]).error.ch in s[2..];
    } else if [s[0]] in charsToByte {
      EncodeFailureNamesChar(charsToByte, s[1..]);
      assert EncodeBody(charsToByte, s[1..]).error.ch in s[1..];
    }
  }

  /** The encoder is stuck at the front of `t`: no two-character token applies and the first character has none. */
  predicate Stuck(charsToByte: map<string, byte>, t: string) {
    t != [] && !(|t| >= 2 && t[..2] in charsToByte) && [t[0]] !in charsToByte
  }

  /** The greedy cursor, started at the front of `s`, reaches position `i`. */
  predicate Reached(charsToByte: map<string, byte>, s: string, i: nat)
    decreases |s|
  {
    if i == 0 then true
    else if s == [] then false
    else if |s| >= 2 && s[..2] in charsToByte then i >= 2 && Reached(charsToByte, s[2..], i - 2)
    else if [s[0]] in charsToByte then Reached(charsToByte, s[1..], i - 1)
    else false
  }

  /** When the cursor reaches a position where it is stuck, encoding fails naming that character. */
  lemma {:induction false} EncodeFailsWhenStuck(charsToByte: map<string, byte>, s: string, i: nat)
    requires i < |s| && Reached(charsToByte, s, i) && Stuck(charsToByte, s[i..])
    ensures EncodeBody(charsToByte, s) == Failure(NoEncodingFor(s[i]))
    decreases |s|
  {
    if i == 0 {
      assert s[0..] == s;
    } else {
      var n := if |s| >= 2 && s[..2] in charsToByte then 2 else 1;
      assert s[n..][i - n..] == s[i..] && s[n..][i - n] == s[i];
      EncodeFailsWhenStuck(charsToByte, s[n..], i - n);
    }
  }

  /** Conversely, encoding fails only at a position the cursor reaches and is stuck at. */
  lemma {:induction false} EncodeFailureIsStuck(charsToByte: map<string, byte>, s: string)
    requires EncodeBody(charsToByte, s).Failure?
    ensures exists i: nat :: i < |s| && Reached(charsToByte, s, i) && Stuck(charsToByte, s[i..])
    decreases |s|
  {
    if Stuck(charsToByte, s) {
      assert s[0..] == s;
      assert Reached(charsToByte, s, 0);
    } else {
      var n := if |s| >= 2 && s[..2] in charsToByte then 2 else 1;
      EncodeFailureIsStuck(charsToByte, s[n..]);
      var j: nat :| j < |s[n..]| && Reached(charsToByte, s[n..], j) && Stuck(charsToByte, s[n..][j..]);
      assert s[n..][j..] == s[j + n..];
      assert Reached(charsToByte, s, j + n);
    }
  }

  /** With no token on the terminator byte, the terminator occurs only at the end. */
  lemma {:induction false} EncodeBodyHasNoTerminator(charsToByte: map<string, byte>, s: string)
    requires forall tok :: tok in charsToByte ==> charsToByte[tok] != NULL_BYTE
    requires EncodeBody(charsToByte, s).Success?
    ensures NULL_BYTE !in EncodeBody(charsToByte, s).value
    decreases |s|
  {
    if s != [] {
      if |s| >= 2 && s[..2] in charsToByte {
        EncodeBodyHasNoTerminator(charsToByte, s[2..]);
      } else {
        EncodeBodyHasNoTerminator(charsToByte, s[1..]);
      }
    }
  }

  // ---------------------------------------------------------------------
  // Decoding

  /** What one byte contributes to the decoded text. */
  function TokenOf(byteToChar: map<byte, string>, b: byte): string {
    if b == NULL_BYTE then ""
    else if b in byteToChar then byteToChar[b]
    else NULL_TEXT
  }

  /**
   * `decodeText`: a left fold over all the bytes; the terminator adds nothing but
   * does not stop the fold, and an unmapped byte adds the text `null`.
   */
  function DecodeText(byteToChar: map<byte, string>, bytes: seq<byte>): (r: string)
    ensures bytes != [] && bytes[0] != NULL_BYTE && bytes[0] !in byteToChar ==> NULL_TEXT <= r
    decreases |bytes|
  {
    if bytes == [] then ""
    else DecodeText(byteToChar, bytes[..|bytes| - 1]) + TokenOf(byteToChar, bytes[|bytes| - 1])
  }

  /** Decoding distributes over concatenation of byte sequences. */
  lemma {:induction false} DecodeAppend(byteToChar: map<byte, string>, a: seq<byte>, b: seq<byte>)
    ensures DecodeText(byteToChar, a + b) == DecodeText(byteToChar, a) + DecodeText(byteToChar, b)
    decreases |b|
  {
    if b == [] {
      assert a + b == a;
    } else {
      var b' := b[..|b| - 1];
      assert (a + b)[..|a + b| - 1] == a + b';
      DecodeAppend(byteToChar, a, b');
    }
  }

  /** A zero byte contributes nothing, and the bytes after it are still decoded. */
  lemma DecodeContinuesPastTerminator(byteToChar: map<byte, string>, a: seq<byte>, b: seq<byte>)
    ensures DecodeText(byteToChar, a + [NULL_BYTE] + b) == DecodeText(byteToChar, a) + DecodeText(byteToChar, b)
  {
    DecodeAppend(byteToChar, a + [NULL_BYTE], b);
    DecodeAppend(byteToChar, a, [NULL_BYTE]);
    DecodeOne(byteToChar, NULL_BYTE);
  }

  lemma DecodeOne(byteToChar: map<byte, string>, b: byte)
    ensures DecodeText(byteToChar, [b]) == TokenOf(byteToChar, b)
  {
    assert [b][..0] == [];
    assert DecodeText(byteToChar, []) == "";
  }

  /** The tokens of `bytes` joined front to back: the reading of `decodeText` as a concatenation. */
  function Tokens(byteToChar: map<byte, string>, bytes: seq<byte>): string
    decreases |bytes|
  {
    if bytes == [] then "" else TokenOf(byteToChar, bytes[0]) + Tokens(byteToChar, bytes[1..])
  }

  /** The fold of `decodeText` is the in-order concatenation of the tokens of the bytes. */
  lemma {:induction false} DecodeIsTokens(byteToChar: map<byte, string>, bytes: seq<byte>)
    ensures DecodeText(byteToChar, bytes) == Tokens(byteToChar, bytes)
    decreases |bytes|
  {
    if bytes != [] {
      DecodeIsTokens(byteToChar, bytes[1..]);
      assert bytes == [bytes[0]] + bytes[1..];
      DecodeAppend(byteToChar, [bytes[0]], bytes[1..]);
      DecodeOne(byteToChar, bytes[0]);
    }
  }

  /** `bytes` with every zero byte removed, order kept. */
  function WithoutZeros(bytes: seq<byte>): (r: seq<byte>)
    ensures NULL_BYTE !in r
    ensures |r| <= |bytes|
    decreases |bytes|
  {
    if bytes == [] then []
    else
      var last := bytes[|bytes| - 1];
      WithoutZeros(bytes[..|bytes| - 1]) + (if last == NULL_BYTE then [] else [last])
  }

  /** Zero bytes anywhere, not only at the end, are skipped: decoding sees only the non-zero bytes. */
  lemma {:induction false} DecodeIgnoresZeros(byteToChar: map<byte, string>, bytes: seq<byte>)
    ensures DecodeText(byteToChar, bytes) == DecodeText(byteToChar, WithoutZeros(bytes))
    decreases |bytes|
  {
    if bytes != [] {
      var front, last := bytes[..|bytes| - 1], bytes[|bytes| - 1];
      DecodeIgnoresZeros(byteToChar, front);
      var tail: seq<byte> := if last == NULL_BYTE then [] else [last];
      DecodeAppend(byteToChar, WithoutZeros(front), tail);
      if last != NULL_BYTE {
        DecodeOne(byteToChar, last);
      }
    }
  }

  /** A non-zero byte without a token decodes to the text `null`. */
  lemma DecodeMissingByte(byteToChar: map<byte, string>, a: seq<byte>, b: byte)
    requires b != NULL_BYTE && b !in byteToChar
    ensures DecodeText(byteToChar, a + [b]) == DecodeText(byteToChar, a) + "null"
  {
    assert (a + [b])[..|a|] == a;
  }

  /** Encoding and then decoding gives the text back, given inverse tables. */
  lemma {:induction false} DecodeEncodeBody(byteToChar: map<byte, string>, charsToByte: map<string, byte>, s: string)
    requires TablesInverse(byteToChar, charsToByte)
    requires EncodeBody(charsToByte, s).Success?
    ensures DecodeText(byteToChar, EncodeBody(charsToByte, s).value) == s
    decreases |s|
  {
    if s != [] {
      var n := if |s| >= 2 && s[..2] in charsToByte then 2 else 1;
      var tok := s[..n];
      assert n == 1 ==> tok == [s[0]];
      var b := charsToByte[tok];
      var rest := EncodeBody(charsToByte, s[n..]);
      assert EncodeBody(charsToByte, s) == Prepend([b], rest);
      DecodeEncodeBody(byteToChar, charsToByte, s[n..]);
      DecodeAppend(byteToChar, [b], rest.value);
      DecodeOne(byteToChar, b);
      assert TokenOf(byteToChar, b) == tok;
      assert s == tok + s[n..];
    }
  }

  /**
   * Round trip through the tables built from one text table: when no two keys
   * name the same byte and none names the terminator, every encodable text
   * decodes back to itself.
   */
  lemma RoundTrip(textTable: seq<Entry>, text: string)
    requires KeysParse(textTable) && KeysDistinct(Parsed(textTable)) && NoTerminatorKey(Parsed(textTable))
    requires Encode(CharsToByteOf(Parsed(textTable)), text).Success?
    ensures DecodeText(ByteToCharOf(Parsed(textTable)), Encode(CharsToByteOf(Parsed(textTable)), text).value) == text
  {
    var b2c, c2b := ByteToCharOf(Parsed(textTable)), CharsToByteOf(Parsed(textTable));
    TablesAreInverse(Parsed(textTable));
    var body := EncodeBody(c2b, text).value;
    DecodeEncodeBody(b2c, c2b, text);
    DecodeAppend(b2c, body, [NULL_BYTE]);
    DecodeOne(b2c, NULL_BYTE);
  }

  /** A two-digit hex key parses as the byte it writes. */
  lemma HexKey(key: string)
    requires |key| == 2 && DigitOf(key[0], 16).Some? && DigitOf(key[1], 16).Some?
    ensures ToUByte(key, 16) == Some((DigitOf(key[0], 16).value * 16 + DigitOf(key[1], 16).value) as byte)
  {
    assert key[..1] == [key[0]] && key[..1][..0] == [];
    assert DigitsValue(key[..1], 16) == DigitOf(key[0], 16).value;
    assert '0' <= key[0] by { assert DigitOf(key[0], 16).Some?; }
  }

  /** A text table with the single letters `A`, `B` and the pair `AB`. */
  const GREEDY_TABLE: seq<Entry> := [("01", "A"), ("02", "B"), ("03", "AB")]

  lemma GreedyTableParses()
    ensures KeysParse(GREEDY_TABLE)
    ensures Parsed(GREEDY_TABLE) == [(1, "A"), (2, "B"), (3, "AB")]
  {
    HexKey("01");
    HexKey("02");
    HexKey("03");
  }

  /**
   * The encoder is greedy: `AB` becomes the pair token `03`, although `01 02`
   * decodes to the same text.
   */
  lemma GreedyTables()
    ensures KeysParse(GREEDY_TABLE)
    ensures CharsToByteOf(Parsed(GREEDY_TABLE)) == map["A" := 1, "B" := 2, "AB" := 3]
    ensures ByteToCharOf(Parsed(GREEDY_TABLE)) == map[1 := "A", 2 := "B", 3 := "AB"]
  {
    GreedyTableParses();
    var p1: seq<Pair> := [(1, "A")];
    var p2 := p1 + [(2, "B")];
    var p := p2 + [(3, "AB")];
    assert Parsed(GREEDY_TABLE) == p;
    CharsToByteStep([], (1, "A"));
    CharsToByteStep(p1, (2, "B"));
    CharsToByteStep(p2, (3, "AB"));
    ByteToCharStep([], (1, "A"));
    ByteToCharStep(p1, (2, "B"));
    ByteToCharStep(p2, (3, "AB"));
    assert [] + p1 == p1;
  }

  lemma GreedyExample()
    ensures KeysParse(GREEDY_TABLE)
    ensures Encode(CharsToByteOf(Parsed(GREEDY_TABLE)), "AB") == Success([3, 0])
    ensures DecodeText(ByteToCharOf(Parsed(GREEDY_TABLE)), [3, 0]) == "AB"
    ensures DecodeText(ByteToCharOf(Parsed(GREEDY_TABLE)), [1, 2, 0]) == "AB"
  {
    GreedyTables();
    var c2b := CharsToByteOf(Parsed(GREEDY_TABLE));
    var b2c := ByteToCharOf(Parsed(GREEDY_TABLE));
    var s := "AB";
    assert s[..2] == "AB" && s[2..] == "";
    assert EncodeBody(c2b, "") == Success([]);
    assert EncodeBody(c2b, s) == Prepend([3], EncodeBody(c2b, ""));
    assert [3] + [] == [3] && [3] + [NULL_BYTE] == [3, 0];
    assert Encode(c2b, s) == Success([3, 0]);
    GreedyDecodes(b2c);
  }

  /** Under the greedy table both the pair byte and the two single bytes decode to `AB`. */
  lemma GreedyDecodes(b2c: map<byte, string>)
    requires b2c == map[1 := "A", 2 := "B", 3 := "AB"]
    ensures DecodeText(b2c, [3, 0]) == "AB" && DecodeText(b2c, [1, 2, 0]) == "AB"
  {
    DecodeOne(b2c, 0);
    DecodeOne(b2c, 1);
    DecodeOne(b2c, 2);
    DecodeOne(b2c, 3);
    assert DecodeText(b2c, [3, 0]) == "AB" by {
      assert [3] + [0] == [3, 0];
      DecodeAppend(b2c, [3], [0]);
    }
    assert DecodeText(b2c, [1, 2]) == "AB" by {
      assert [1] + [2] == [1, 2];
      DecodeAppend(b2c, [1], [2]);
    }
    assert [1, 2] + [0] == [1, 2, 0];
    DecodeAppend(b2c, [1, 2], [0]);
  }

  /** A text table in which two bytes stand for a space. */
  const SPACE_TABLE: seq<Entry> := [("10", " "), ("11", " ")]

  /**
   * Both space bytes decode to a space, and a space encodes to the first one:
   * `byteToChar` keeps every key while `charsToByte` keeps the first byte per token.
   */
  lemma DuplicateTokenExample()
    ensures KeysParse(SPACE_TABLE)
    ensures ByteToCharOf(Parsed(SPACE_TABLE)) == map[0x10 := " ", 0x11 := " "]
    ensures CharsToByteOf(Parsed(SPACE_TABLE)) == map[" " := 0x10]
    ensures Encode(CharsToByteOf(Parsed(SPACE_TABLE)), " ") == Success([0x10, 0])
  {
    HexKey("10");
    HexKey("11");
    var p1: seq<Pair> := [(0x10, " ")];
    var p := p1 + [(0x11, " ")];
    assert Parsed(SPACE_TABLE) == p;
    CharsToByteStep([], (0x10, " "));
    CharsToByteStep(p1, (0x11, " "));
    ByteToCharStep([], (0x10, " "));
    ByteToCharStep(p1, (0x11, " "));
    assert [] + p1 == p1;
    var c2b := CharsToByteOf(p);
    assert c2b == map[" " := 0x10];
    var s := " ";
    assert [s[0]] == " " && s[1..] == "";
    assert EncodeBody(c2b, "") == Success([]);
    assert EncodeBody(c2b, s) == Prepend([0x10], EncodeBody(c2b, ""));
    assert [0x10] + [] == [0x10] && [0x10] + [NULL_BYTE] == [0x10, 0];
    assert Encode(c2b, s) == Success([0x10, 0]);
  }

  // ---------------------------------------------------------------------
  // Offsets and sizes

  /**
   * `String.asInt`: `0x` selects base 16 for the rest, otherwise a leading `0`
   * selects base 8 for the rest, otherwise base 10.
   */
  function AsInt(s: string): (r: Option<int32>)
    ensures r.Some? ==> s != "" && s != "0x"
    ensures r.Some? && r.value < 0 ==> '-' in s
  {
    if |s| >= 2 && s[..2] == "0x" then ToInt(s[2..], 16)
    else if |s| >= 1 && s[0] == '0' then ToInt(s[1..], 8)
    else ToInt(s, 10)
  }

  lemma AsIntHex(n: nat)
    requires n <= INT_MAX
    ensures AsInt("0x" + Digits(n, 16)) == Some(n)
  {
    var s := "0x" + Digits(n, 16);
    assert s[..2] == "0x" && s[2..] == Digits(n, 16);
    ToIntOfDigits(n, 16);
  }

  lemma AsIntOctal(n: nat)
    requires n <= INT_MAX
    ensures AsInt("0" + Digits(n, 8)) == Some(n)
  {
    var s := "0" + Digits(n, 8);
    assert s[1..] == Digits(n, 8);
    ToIntOfDigits(n, 8);
    DigitsAreDigitChars(n, 8);
    DigitOfDigitCharBound(n, 8);
    assert s[1] == Digits(n, 8)[0];
  }

  /** Octal digits are never the letter `x`. */
  lemma DigitOfDigitCharBound(n: nat, radix: nat)
    requires 2 <= radix <= 10
    ensures Digits(n, radix)[0] <= '9'
  {
    DigitsRoundTrip(n, radix);
    assert DigitOf(Digits(n, radix)[0], radix).Some?;
  }

  /** A positive decimal number reads back. */
  lemma AsIntDecimal(n: nat)
    requires 1 <= n <= INT_MAX
    ensures AsInt(Digits(n, 10)) == Some(n)
  {
    var s := Digits(n, 10);
    DigitsNoLeadingZero(n, 10);
    if |s| >= 2 {
      assert s[..2][0] == s[0] != '0';
    }
    assert AsInt(s) == ToInt(s, 10);
    ToIntOfDigits(n, 10);
  }

  /** Zero written as `0` does not parse: its octal remainder is empty. */
  lemma AsIntZero()
    ensures AsInt("0") == None
  {
    var s := "0";
    assert s[0] == '0' && |s| == 1;
    assert s[1..] == "";
  }

  lemma AsIntExamples()
    ensures AsInt("0x10") == Some(16) && AsInt("020") == Some(16) && AsInt("16") == Some(16)
  {
    assert Digits(16, 16) == "10";
    AsIntHex(16);
    assert Digits(16, 8) == "20";
    AsIntOctal(16);
    assert Digits(16, 10) == "16";
    AsIntDecimal(16);
  }

  /**
   * The `dataPointer` getter: nothing for a missing key, otherwise `asInt` of the
   * stored text, which throws NumberFormatException when it does not parse.
   */
  function DataPointer(config: Config, key: string): (r: Result<Option<int32>, Error>)
    ensures r == Success(None) <==> key !in config.dataPointers
    ensures r.Failure? <==> key in config.dataPointers && AsInt(config.dataPointers[key]).None?
    ensures r.Failure? ==> r.error == NumberFormat
    ensures r.Success? && r.value.Some? ==> AsInt(config.dataPointers[key]) == Some(r.value.value)
  {
    if key !in config.dataPointers then Success(None)
    else match AsInt(config.dataPointers[key])
      case Some(n) => Success(Some(n))
      case None => Failure(NumberFormat)
  }

  /** A pointer stored in `0x` form is read back as the number it writes. */
  lemma DataPointerOfHex(config: Config, key: string, n: nat)
    requires n <= INT_MAX
    requires key in config.dataPointers && config.dataPointers[key] == "0x" + Digits(n, 16)
    ensures DataPointer(config, key) == Success(Some(n))
  {
    AsIntHex(n);
  }

  /** `dataSize[key]`: the configured record size, or nothing. */
  function DataSize(config: Config, key: string): (r: Option<int32>)
    ensures r.Some? <==> key in config.structureSizes
    ensures r.Some? ==> r.value == config.structureSizes[key]
  {
    if key in config.structureSizes then Some(config.structureSizes[key]) else None
  }
}
