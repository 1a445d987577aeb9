/**
 * The shared byte-level helpers of the ATEM client (namespace `Util`):
 * range and enum validation used by every command decoder, string and
 * buffer conversions, the video-mode resolution table, the two connection
 * handshake packets and the 24-bit endian swap of WAV sample data.
 */
module AtemUtil {
  import opened Wrappers

  /** One octet of a Node `Buffer`. */
  type Byte = b: int | 0 <= b < 256

  /** The errors that `parseNumberBetween` and `parseEnum` throw. */
  datatype ParseError =
    | NumberTooBig(num: int, max: int)
    | NumberTooSmall(num: int, min: int)
    | NotAnEnumOption

  /*************************************************************************
   * parseNumberBetween
   *************************************************************************/

  /** Accepts `num` unchanged when `min <= num <= max`. The upper bound is tested first. */
  function ParseNumberBetween(num: int, min: int, max: int): (r: Result<int, ParseError>)
    ensures r.Ok? <==> min <= num <= max
    ensures r.Ok? ==> r.value == num
    ensures num > max ==> r == Err(NumberTooBig(num, max))
    ensures num <= max && num < min ==> r == Err(NumberTooSmall(num, min))
  {
    if num > max then Err(NumberTooBig(num, max))
    else if num < min then Err(NumberTooSmall(num, min))
    else Ok(num)
  }

  /** Both ends of a non-empty range are accepted. */
  lemma ParseNumberBetweenBoundaries(min: int, max: int)
    requires min <= max
    ensures ParseNumberBetween(min, min, max) == Ok(min)
    ensures ParseNumberBetween(max, min, max) == Ok(max)
  {
  }

  /** With an empty range (min > max) nothing is accepted, and "too big" wins for every num above max. */
  lemma ParseNumberBetweenEmptyRange(num: int, min: int, max: int)
    requires min > max
    ensures ParseNumberBetween(num, min, max).Err?
    ensures num > max ==> ParseNumberBetween(num, min, max).error == NumberTooBig(num, max)
  {
  }

  /*************************************************************************
   * parseEnum
   *************************************************************************/

  /** A property value of a JavaScript object, as far as an enum object can hold one. */
  datatype JsValue = JsString(str: string) | JsNumber(number: int)

  /** JavaScript truthiness of such a value: the empty string and 0 are falsy. */
  predicate Truthy(v: JsValue) {
    match v
    case JsString(str) => str != ""
    case JsNumber(number) => number != 0
  }

  /**
   * Accepts `value` unchanged when the enum object has a truthy property
   * under that key; an absent property (`undefined`) or a falsy one fails.
   */
  function ParseEnum<G(==)>(value: G, enumObject: map<G, JsValue>): (r: Result<G, ParseError>)
    ensures r.Ok? <==> value in enumObject && Truthy(enumObject[value])
    ensures r.Ok? ==> r.value == value
    ensures r.Err? ==> r.error == NotAnEnumOption
  {
    if value in enumObject && Truthy(enumObject[value]) then Ok(value) else Err(NotAnEnumOption)
  }

  /** A property key of a TypeScript enum object: a member name or a member value. */
  datatype EnumKey = NameKey(name: string) | NumberKey(number: int)

  /** One member of a numeric TypeScript enum, `name = value`. */
  datatype EnumMember = EnumMember(name: string, value: int)

  /**
   * The object TypeScript emits for a numeric enum: for each member, in
   * declaration order, `E[E[name] = value] = name`, so that the object maps
   * names to values and values back to names (a later member wins).
   */
  function EnumObject(members: seq<EnumMember>): (obj: map<EnumKey, JsValue>)
    ensures obj.Keys == (set m | m in members :: NameKey(m.name)) + (set m | m in members :: NumberKey(m.value))
  {
    if members == [] then map[]
    else
      var init := members[..|members| - 1];
      var m := members[|members| - 1];
      assert members == init + [m];
      EnumObject(init)[NameKey(m.name) := JsNumber(m.value)][NumberKey(m.value) := JsString(m.name)]
  }

  /** Looking a value up in the enum object finds a member name exactly when some member has that value. */
  lemma {:induction false} EnumObjectReverseEntry(members: seq<EnumMember>, v: int)
    ensures NumberKey(v) in EnumObject(members) <==> exists i :: 0 <= i < |members| && members[i].value == v
    ensures NumberKey(v) in EnumObject(members) ==>
      exists i :: 0 <= i < |members| && members[i].value == v && EnumObject(members)[NumberKey(v)] == JsString(members[i].name)
  {
    if members != [] {
      var init := members[..|members| - 1];
      var m := members[|members| - 1];
      EnumObjectReverseEntry(init, v);
      if m.value != v {
        assert forall i :: 0 <= i < |init| ==> init[i] == members[i];
        if exists i :: 0 <= i < |members| && members[i].value == v {
          var i :| 0 <= i < |members| && members[i].value == v;
          assert i < |init| && init[i].value == v;
        }
      } else {
        assert members[|members| - 1].value == v;
      }
    }
  }

  /**
   * For an enum whose member names are non-empty (TypeScript identifiers),
   * `parseEnum` accepts a number exactly when it is the value of a member.
   */
  lemma ParseEnumAcceptsExactlyDeclaredValues(members: seq<EnumMember>, v: int)
    requires forall i :: 0 <= i < |members| ==> members[i].name != ""
    ensures ParseEnum(NumberKey(v), EnumObject(members)).Ok? <==> exists i :: 0 <= i < |members| && members[i].value == v
  {
    EnumObjectReverseEntry(members, v);
  }

  /** No two members share a name, as TypeScript requires of an enum. */
  predicate DistinctNames(members: seq<EnumMember>) {
    forall i, j :: 0 <= i < j < |members| ==> members[i].name != members[j].name
  }

  /** When member names are distinct, looking a member up by name gives its value. */
  lemma {:induction false} EnumObjectNameEntry(members: seq<EnumMember>, i: nat)
    requires DistinctNames(members) && i < |members|
    ensures NameKey(members[i].name) in EnumObject(members)
    ensures EnumObject(members)[NameKey(members[i].name)] == JsNumber(members[i].value)
  {
    var init := members[..|members| - 1];
    if i < |members| - 1 {
      assert DistinctNames(init) by {
        forall a, b | 0 <= a < b < |init| ensures init[a].name != init[b].name {
          assert init[a] == members[a] && init[b] == members[b];
        }
      }
      assert init[i] == members[i];
      EnumObjectNameEntry(init, i);
      assert members[i].name != members[|members| - 1].name;
    }
  }

  /**
   * Looking a member up by its name succeeds exactly when its value is not 0:
   * a 0-valued member, wherever it is declared, is rejected because 0 is falsy.
   */
  lemma ParseEnumRejectsZeroValuedName(members: seq<EnumMember>, i: nat)
    requires DistinctNames(members) && i < |members|
    ensures ParseEnum(NameKey(members[i].name), EnumObject(members)).Ok? <==> members[i].value != 0
    ensures members[i].value == 0 ==> ParseEnum(NameKey(members[i].name), EnumObject(members)) == Err(NotAnEnumOption)
  {
    EnumObjectNameEntry(members, i);
  }

  /** The usual enum shape, a 0-valued first member: its name is rejected, the value 0 is accepted. */
  lemma ParseEnumFirstMemberZero()
    ensures ParseEnum(NameKey("Mix"), EnumObject([EnumMember("Mix", 0), EnumMember("Dip", 1)])) == Err(NotAnEnumOption)
    ensures ParseEnum(NumberKey(0), EnumObject([EnumMember("Mix", 0), EnumMember("Dip", 1)])) == Ok(NumberKey(0))
  {
    ParseEnumRejectsZeroValuedName([EnumMember("Mix", 0), EnumMember("Dip", 1)], 0);
  }

  /*************************************************************************
   * stringToBytes
   *************************************************************************/

  /** Every character is 7-bit ASCII. */
  predicate IsAscii(s: string) {
    forall i :: 0 <= i < |s| ==> s[i] as int < 0x80
  }

  /** The UTF-8 encoding of one Unicode scalar value. */
  function Utf8Char(c: char): (r: seq<Byte>)
    ensures 1 <= |r| <= 4
    ensures |r| == 1 <==> c as int < 0x80
    ensures c as int < 0x80 ==> r == [c as int]
    ensures forall k :: 1 <= k < |r| ==> 0x80 <= r[k] < 0xC0
  {
    var cp := c as int;
    if cp < 0x80 then [cp]
    else if cp < 0x800 then [0xC0 + cp / 64, 0x80 + cp % 64]
    else if cp < 0x10000 then [0xE0 + cp / 4096, 0x80 + (cp / 64) % 64, 0x80 + cp % 64]
    else [0xF0 + cp / 262144, 0x80 + (cp / 4096) % 64, 0x80 + (cp / 64) % 64, 0x80 + cp % 64]
  }

  /** What Node's `Buffer.from(str)` holds: the UTF-8 encoding of `str`, character by character. */
  function Utf8Encode(s: string): (r: seq<Byte>)
    ensures |r| >= |s|
  {
    if s == [] then [] else Utf8Char(s[0]) + Utf8Encode(s[1..])
  }

  /** An ASCII string encodes to one byte per character, the character's code. */
  lemma {:induction false} AsciiEncodesOneBytePerChar(s: string)
    requires IsAscii(s)
    ensures |Utf8Encode(s)| == |s|
    ensures forall i :: 0 <= i < |s| ==> Utf8Encode(s)[i] == s[i] as int
  {
    if s != [] {
      assert IsAscii(s[1..]) by {
        forall i | 0 <= i < |s[1..]| ensures s[1..][i] as int < 0x80 {
          assert s[1..][i] == s[i + 1];
        }
      }
      AsciiEncodesOneBytePerChar(s[1..]);
      assert Utf8Encode(s) == [s[0] as int] + Utf8Encode(s[1..]);
    }
  }

  /** The encoding is as long as the string exactly when the string is ASCII. */
  lemma {:induction false} SameLengthOnlyForAscii(s: string)
    ensures |Utf8Encode(s)| == |s| <==> IsAscii(s)
  {
    if s != [] {
      SameLengthOnlyForAscii(s[1..]);
      assert IsAscii(s) <==> s[0] as int < 0x80 && IsAscii(s[1..]) by {
        if IsAscii(s) {
          forall i | 0 <= i < |s[1..]| ensures s[1..][i] as int < 0x80 {
            assert s[1..][i] == s[i + 1];
          }
        }
        if s[0] as int < 0x80 && IsAscii(s[1..]) {
          forall i | 0 <= i < |s| ensures s[i] as int < 0x80 {
            if i > 0 { assert s[i] == s[1..][i - 1]; }
          }
        }
      }
    }
  }

  /** `stringToBytes`: copies the bytes of `Buffer.from(str)` one by one into a fresh list. */
  method StringToBytes(str: string) returns (bytes: seq<Byte>)
    ensures bytes == Utf8Encode(str)
    ensures IsAscii(str) ==> |bytes| == |str| && forall i :: 0 <= i < |str| ==> bytes[i] == str[i] as int
  {
    var encoded := Utf8Encode(str);
    bytes := [];
    var i := 0;
    while i < |encoded|
      invariant 0 <= i <= |encoded|
      invariant bytes == encoded[..i]
    {
      bytes := bytes + [encoded[i]];
      i := i + 1;
    }
    assert encoded[..i] == encoded;
    if IsAscii(str) {
      AsciiEncodesOneBytePerChar(str);
    }
  }

  /*************************************************************************
   * bufToNullTerminatedString
   *************************************************************************/

  /** Node's offset adjustment for `Buffer.slice`: a negative offset counts from the end; the result is clamped to the buffer. */
  function AdjustOffset(offset: int, length: nat): (k: nat)
    ensures k <= length
    ensures 0 <= offset <= length ==> k == offset
    ensures offset > length ==> k == length
    ensures offset < 0 && offset + length >= 0 ==> k == offset + length
    ensures offset + length < 0 ==> k == 0
  {
    if offset < 0 then (if offset + length > 0 then offset + length else 0)
    else if offset < length then offset
    else length
  }

  /** `buffer.slice(start, end)`: the bytes between the adjusted offsets, or none when they cross. */
  function Slice(buffer: seq<Byte>, start: int, end: int): (r: seq<Byte>)
    ensures start <= end ==> |r| <= end - start
    ensures 0 <= start <= end <= |buffer| ==> r == buffer[start..end]
    ensures 0 <= start <= |buffer| <= end ==> r == buffer[start..]
  {
    var s := AdjustOffset(start, |buffer|);
    var e := AdjustOffset(end, |buffer|);
    if e > s then buffer[s..e] else []
  }

  /** `buffer.indexOf(b)`: the index of the first byte equal to `b`, or -1. */
  function IndexOf(s: seq<Byte>, b: Byte): (k: int)
    ensures -1 <= k < |s|
    ensures k >= 0 ==> s[k] == b
    ensures forall j :: 0 <= j < (if k < 0 then |s| else k) ==> s[j] != b
  {
    if s == [] then -1
    else if s[0] == b then 0
    else
      var k := IndexOf(s[1..], b);
      if k < 0 then -1 else k + 1
  }

  /** Node's 'ascii' decoder: bit 7 of each byte is cleared and the rest is the character code. */
  function AsciiDecode(bytes: seq<Byte>): (r: string)
    ensures |r| == |bytes|
    ensures forall i :: 0 <= i < |bytes| ==> r[i] as int == bytes[i] % 0x80
  {
    if bytes == [] then "" else [(bytes[0] % 0x80) as char] + AsciiDecode(bytes[1..])
  }

  /** The bytes `bufToNullTerminatedString` decodes: the clamped field up to its first zero byte. */
  function NullTerminatedPrefix(buffer: seq<Byte>, start: int, length: int): (prefix: seq<Byte>)
    ensures 0 !in prefix
  {
    var slice := Slice(buffer, start, start + length);
    var nullIndex := IndexOf(slice, 0);
    slice[..if nullIndex < 0 then |slice| else nullIndex]
  }

  /**
   * `bufToNullTerminatedString`: the field `[start, start + length)` of the
   * buffer (clamped as `Buffer.slice` does) decoded as ASCII up to, and not
   * including, its first zero byte.
   */
  function BufToNullTerminatedString(buffer: seq<Byte>, start: int, length: int): (r: string)
    ensures var field := Slice(buffer, start, start + length);
      && |r| <= |field|
      && (|r| < |field| ==> field[|r|] == 0)
      && forall i :: 0 <= i < |r| ==> field[i] != 0 && r[i] as int == field[i] % 0x80
    ensures length >= 0 ==> |r| <= length
  {
    AsciiDecode(NullTerminatedPrefix(buffer, start, length))
  }

  /** The result holds a NUL character exactly when a 0x80 byte precedes the field's first zero byte. */
  lemma NullTerminatedStringHasNoNul(buffer: seq<Byte>, start: int, length: int)
    ensures '\0' !in BufToNullTerminatedString(buffer, start, length)
      <==> 0x80 !in NullTerminatedPrefix(buffer, start, length)
  {
    var prefix := NullTerminatedPrefix(buffer, start, length);
    var r := BufToNullTerminatedString(buffer, start, length);
    assert r == AsciiDecode(prefix);
    if '\0' in r {
      var i :| 0 <= i < |r| && r[i] == '\0';
      assert prefix[i] != 0 && prefix[i] % 0x80 == 0;
      assert prefix[i] == 0x80;
    }
    if 0x80 in prefix {
      var i :| 0 <= i < |prefix| && prefix[i] == 0x80;
      assert r[i] as int == 0;
    }
  }

  /** The 'ascii' decoder turns 0x80 into a NUL character, which then appears in the result. */
  lemma NullTerminatedStringKeepsHighBitNul()
    ensures BufToNullTerminatedString([0x41, 0x80, 0x42, 0x00, 0x43], 0, 5) == "A\0B"
  {
  }

  /** A negative length is not rejected: the end offset then counts from the end of the buffer. */
  lemma NullTerminatedStringNegativeLength()
    ensures BufToNullTerminatedString([0x41, 0x42, 0x43, 0x44], 1, -2) == "BC"
  {
  }

  /** `length` zero bytes. */
  function Zeros(length: nat): (r: seq<Byte>)
    ensures |r| == length && forall i :: 0 <= i < length ==> r[i] == 0
  {
    seq(length, _ => 0)
  }

  /** A field holding the codes of a NUL-free ASCII name, then a zero byte or its end, reads back as that name. */
  lemma NullTerminatedFieldReadsBack(field: seq<Byte>, name: string)
    requires |name| <= |field|
    requires forall i :: 0 <= i < |name| ==> 0 < name[i] as int < 0x80 && field[i] == name[i] as int
    requires |name| < |field| ==> field[|name|] == 0
    ensures BufToNullTerminatedString(field, 0, |field|) == name
  {
    var r := BufToNullTerminatedString(field, 0, |field|);
    assert Slice(field, 0, |field|) == field;
    assert |r| == |name|;
    forall i | 0 <= i < |name| ensures r[i] == name[i] {
      assert r[i] as int == field[i] % 0x80;
    }
  }

  /** The encoding of a NUL-free ASCII name, zero-padded, holds the name's codes followed by zero bytes. */
  lemma PaddedNameField(name: string, width: nat)
    requires IsAscii(name) && '\0' !in name && |name| <= width
    ensures var field := Utf8Encode(name) + Zeros(width - |name|);
      && |field| == width
      && (forall i :: 0 <= i < |name| ==> 0 < name[i] as int < 0x80 && field[i] == name[i] as int)
      && (|name| < width ==> field[|name|] == 0)
  {
    AsciiEncodesOneBytePerChar(name);
    var encoded := Utf8Encode(name);
    var field := encoded + Zeros(width - |name|);
    forall i | 0 <= i < |name| ensures 0 < name[i] as int < 0x80 && field[i] == name[i] as int {
      assert field[i] == encoded[i];
      assert name[i] != '\0';
    }
    if |name| < width {
      assert field[|name|] == Zeros(width - |name|)[0];
    }
  }

  /**
   * A NUL-free ASCII name written with `stringToBytes` into a zero-padded
   * field of `width` bytes reads back unchanged.
   */
  lemma NullTerminatedStringReadsBackName(name: string, width: nat)
    requires IsAscii(name) && '\0' !in name && |name| <= width
    ensures BufToNullTerminatedString(Utf8Encode(name) + Zeros(width - |name|), 0, width) == name
  {
    PaddedNameField(name, width);
    NullTerminatedFieldReadsBack(Utf8Encode(name) + Zeros(width - |name|), name);
  }

  /*************************************************************************
   * getResolution
   *************************************************************************/

  /** A picture size in pixels. */
  datatype Resolution = Resolution(width: nat, height: nat)

  const NTSC := Resolution(640, 480)
  const PAL := Resolution(720, 576)
  const HD := Resolution(1280, 720)
  const FHD := Resolution(1920, 1080)
  const UHD := Resolution(3840, 2160)

  /** The table `getResolution` indexes, by video-mode number. */
  const EnumToResolution: seq<Resolution> := [
    NTSC, PAL, NTSC, PAL,
    HD, HD,
    FHD, FHD, FHD, FHD, FHD, FHD, FHD, FHD,
    UHD, UHD, UHD, UHD,
    UHD, UHD
  ]

  /** `getResolution`: the resolution of a video mode; `undefined` past the table. */
  function GetResolution(videoMode: int): (r: Option<Resolution>)
    ensures r.None? <==> videoMode < 0 || videoMode >= 20
    ensures videoMode == 0 || videoMode == 2 ==> r == Some(Resolution(640, 480))
    ensures videoMode == 1 || videoMode == 3 ==> r == Some(Resolution(720, 576))
    ensures 4 <= videoMode <= 5 ==> r == Some(Resolution(1280, 720))
    ensures 6 <= videoMode <= 13 ==> r == Some(Resolution(1920, 1080))
    ensures 14 <= videoMode <= 19 ==> r == Some(Resolution(3840, 2160))
  {
    if 0 <= videoMode < |EnumToResolution| then Some(EnumToResolution[videoMode]) else None
  }

  /*************************************************************************
   * Connection handshake
   *************************************************************************/

  /** `COMMAND_CONNECT_HELLO`: the 20-byte packet that opens a session. */
  function CommandConnectHello(): (r: seq<Byte>)
    ensures |r| == 20 && r[1] == |r|
    ensures r[2..4] == [0x53, 0xAB]
  {
    var header: seq<Byte> := [0x10, 0x14, 0x53, 0xAB];
    var body: seq<Byte> := [0x00, 0x00, 0x00, 0x00,
                            0x00, 0x3A, 0x00, 0x00,
                            0x01, 0x00, 0x00, 0x00,
                            0x00, 0x00, 0x00, 0x00];
    assert |header + body| == 20 && (header + body)[..4] == header;
    header + body
  }

  /** `COMMAND_CONNECT_HELLO_ANSWER`: the 12-byte packet that acknowledges the device's hello. */
  function CommandConnectHelloAnswer(): (r: seq<Byte>)
    ensures |r| == 12 && r[1] == |r|
    ensures r[2..4] == [0x53, 0xAB]
  {
    var header: seq<Byte> := [0x80, 0x0C, 0x53, 0xAB];
    var body: seq<Byte> := [0x00, 0x00, 0x00, 0x00,
                            0x00, 0x03, 0x00, 0x00];
    assert |header + body| == 12 && (header + body)[..4] == header;
    header + body
  }

  /*************************************************************************
   * convertWAVToRaw
   *************************************************************************/

  /** The errors `convertWAVToRaw` throws about the parsed WAV header. */
  datatype WavError =
    | InvalidBitsPerSample(bitsPerSample: int)
    | InvalidChannelCount

  /** Byte `i` of the buffer, or 0 past its end (`undefined` stored into a Buffer becomes 0). */
  function ByteOrZero(s: seq<Byte>, i: nat): Byte {
    if i < |s| then s[i] else 0
  }

  /** Byte `j` of the swapped buffer: the byte at the mirrored place of its 3-byte group. */
  function SwappedByte(samples: seq<Byte>, j: nat): Byte
    requires j < |samples|
  {
    if j % 3 == 0 then ByteOrZero(samples, j + 2)
    else if j % 3 == 1 then samples[j]
    else samples[j - 2]
  }

  /** The byte order change of `convertWAVToRaw`, applied to the raw sample data. */
  function Swap24(samples: seq<Byte>): (r: seq<Byte>)
    ensures |r| == |samples|
  {
    seq(|samples|, j requires 0 <= j < |samples| => SwappedByte(samples, j))
  }

  /** Every complete 3-byte group is reversed. */
  lemma Swap24ReversesGroup(samples: seq<Byte>, k: nat)
    requires 3 * k + 3 <= |samples|
    ensures Swap24(samples)[3 * k..3 * k + 3] == [samples[3 * k + 2], samples[3 * k + 1], samples[3 * k]]
  {
  }

  /** Reading a complete group of the output big-endian gives the input's little-endian 24-bit sample. */
  lemma Swap24ChangesEndianness(samples: seq<Byte>, k: nat)
    requires 3 * k + 3 <= |samples|
    ensures var r := Swap24(samples);
      r[3 * k] as int * 0x10000 + r[3 * k + 1] as int * 0x100 + r[3 * k + 2] as int
      == samples[3 * k] as int + samples[3 * k + 1] as int * 0x100 + samples[3 * k + 2] as int * 0x10000
  {
  }

  /** A trailing partial group loses its first byte, which becomes 0; a second byte stays. */
  lemma Swap24PartialGroup(samples: seq<Byte>)
    requires |samples| % 3 != 0
    ensures var n := |samples|;
      if n % 3 == 1 then Swap24(samples)[n - 1] == 0
      else Swap24(samples)[n - 2] == 0 && Swap24(samples)[n - 1] == samples[n - 1]
  {
  }

  /** Swapping twice restores data made of complete groups. */
  lemma Swap24Involution(samples: seq<Byte>)
    requires |samples| % 3 == 0
    ensures Swap24(Swap24(samples)) == samples
  {
  }

  /** The sample loop of `convertWAVToRaw`: fills a zeroed buffer of the same length, one 3-byte group at a time. */
  method SwapSamples(samples: seq<Byte>) returns (raw: seq<Byte>)
    ensures raw == Swap24(samples)
  {
    var buffer2 := new Byte[|samples|](_ => 0);
    var i := 0;
    while i < buffer2.Length
      invariant i % 3 == 0
      invariant i <= buffer2.Length + 2
      invariant forall j :: 0 <= j < buffer2.Length && j < i ==> buffer2[j] == SwappedByte(samples, j)
    {
      // a read past the end yields undefined, which the buffer stores as 0
      buffer2[i] := ByteOrZero(samples, i + 2);
      // writes past the end of a Buffer are ignored
      if i + 1 < buffer2.Length {
        buffer2[i + 1] := samples[i + 1];
      }
      if i + 2 < buffer2.Length {
        buffer2[i + 2] := samples[i];
      }
      i := i + 3;
    }
    raw := buffer2[..];
    assert forall j :: 0 <= j < |raw| ==> raw[j] == Swap24(samples)[j];
  }

  /**
   * `convertWAVToRaw`, given the bit depth, channel count and sample bytes
   * that the WAV parser reports: only 24-bit stereo data is converted.
   */
  method ConvertWavToRaw(bitsPerSample: int, numChannels: int, samples: seq<Byte>) returns (r: Result<seq<Byte>, WavError>)
    ensures bitsPerSample != 24 ==> r == Err(InvalidBitsPerSample(bitsPerSample))
    ensures bitsPerSample == 24 && numChannels != 2 ==> r == Err(InvalidChannelCount)
    ensures bitsPerSample == 24 && numChannels == 2 ==> r == Ok(Swap24(samples))
  {
    if bitsPerSample != 24 {
      return Err(InvalidBitsPerSample(bitsPerSample));
    }
    if numChannels != 2 {
      return Err(InvalidChannelCount);
    }
    var raw := SwapSamples(samples);
    r := Ok(raw);
  }
}
