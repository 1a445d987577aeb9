# ATEM control client: byte utilities and the auto-transition command

This project models two byte-level parts of a control client for Blackmagic ATEM video mixers.

The first part is the `Util` namespace, whose helpers every command codec uses:
- range validation of decoded numbers (`parseNumberBetween`);
- validation of values against a TypeScript enum object (`parseEnum`);
- extraction of a NUL-terminated ASCII string from a fixed-width buffer field (`bufToNullTerminatedString`);
- conversion of a string to its bytes (`stringToBytes`);
- the video-mode to resolution table (`getResolution`);
- the two fixed connection-handshake packets;
- the 24-bit endian swap that `convertWAVToRaw` applies to audio samples.

The second part is one representative command, `AutoTransitionCommand`. Its wire name is `DAut`. It carries one field, the mix-effect bus index, which must lie in 0..3. Its serialization is a fixed 8 bytes, and its state application does nothing.

Modules:
- `Wrappers` (`wrappers.dfy`): `Option`, `Result` and `Outcome`. They stand for JavaScript's `undefined` and for thrown errors.
- `AtemUtil` (`atem_util.dfy`): the helpers. Bytes are `Byte = 0..255`. Node's `Buffer` behaviour is written out where the code relies on it; each case is described below.
- `AutoTransition` (`auto_transition_command.dfy`): the command class and its byte-level specification functions, with the round-trip lemmas.

Node and JavaScript behaviour that the model writes out:
- `Buffer.slice` adjusts offsets the way Node's `adjustOffset` does. A negative offset counts from the end of the buffer, and offsets are clamped to the buffer. Slices whose offsets cross are empty.
- Node's `'ascii'` decoder clears bit 7 of every byte. So a 0x80 byte before the terminator decodes to a NUL character. The value returned by `bufToNullTerminatedString` therefore contains a NUL exactly when a 0x80 byte comes before the field's first zero byte (`NullTerminatedStringHasNoNul`, `NullTerminatedStringKeepsHighBitNul`).
- The enum objects handed to `parseEnum` are the objects TypeScript emits for a numeric enum (`EnumObject`). For each member in declaration order, the emitted code runs `E[E[name] = value] = name`. So the object maps every name to its value and every value back to a name, and a later member wins. Since 0 is falsy, looking up a 0-valued member by its name fails.
- `Buffer.from(str)` is UTF-8 encoding (`Utf8Encode`). For ASCII strings, `StringToBytes` gives one byte per character, equal to the character code. The encoding has the same length as the string exactly when the string is ASCII.
- Storing a number into a `Buffer` keeps its low 8 bits, and `undefined` is stored as 0 (`ToUint8`). Reading past the end of a buffer gives `undefined`. Writing past its end is ignored. This decides what the WAV swap does with a trailing partial group.
- `AutoTransitionCommand.mixEffect` is `undefined` until it is assigned. `deserialize` of an empty payload reads `undefined`. Both comparisons in `parseNumberBetween` are then false, so it stores `undefined` and succeeds. The model keeps this: `Option<int>`, with `None` for `undefined`.

In these places the model keeps the code's behaviour:
- Range errors carry the observed value and the bound that failed. They do not name the field.
- The upper bound is checked first. So with `min > max`, any number above `max` is reported as "too big".
- The auto-transition payload is not required to have any particular length.

## Model

| member | source | states |
|---|---|---|
| `AtemUtil.ParseNumberBetween` | src/lib/atemUtil.ts:26-30 | succeeds exactly when min <= num <= max and then returns num unchanged; num > max fails "too big" (checked first); num <= max and num < min fails "too small" |
| `AtemUtil.ParseNumberBetweenBoundaries` | src/lib/atemUtil.ts:26-30 | both boundary values of a non-empty range are accepted |
| `AtemUtil.ParseNumberBetweenEmptyRange` | src/lib/atemUtil.ts:27-28 | with min > max every number fails, and "too big" wins for every number above max |
| `AtemUtil.ParseEnum` | src/lib/atemUtil.ts:32-35 | succeeds exactly when the enum object has a truthy property under the value's key, returning the value unchanged; otherwise fails with the enum error |
| `AtemUtil.EnumObject` | src/lib/atemUtil.ts:32-35 | the TypeScript enum object passed as `type` has exactly the members' names and the members' values as keys |
| `AtemUtil.EnumObjectNameEntry` | src/lib/atemUtil.ts:32-35 | when member names are distinct, the enum object maps each member's name to that member's value |
| `AtemUtil.EnumObjectReverseEntry` | src/lib/atemUtil.ts:32-35 | the TypeScript enum object passed as `type` has a number key exactly when some member has that value, and it maps that key to a member's name |
| `AtemUtil.ParseEnumAcceptsExactlyDeclaredValues` | src/lib/atemUtil.ts:32-35 | for an enum with non-empty member names, a number is accepted if and only if it is a declared member value |
| `AtemUtil.ParseEnumRejectsZeroValuedName` | src/lib/atemUtil.ts:33 | for distinct member names, looking any member up by its name succeeds if and only if its value is not 0; a 0-valued member fails with the enum error |
| `AtemUtil.ParseEnumFirstMemberZero` | src/lib/atemUtil.ts:33 | example: in an enum `Mix = 0, Dip = 1` the name `Mix` is rejected while the value 0 is accepted |
| `AtemUtil.Utf8Char` | src/lib/atemUtil.ts:10 | the UTF-8 encoding of one character is 1 to 4 bytes; it is one byte, the character code, exactly for ASCII; continuation bytes lie in 0x80..0xBF |
| `AtemUtil.Utf8Encode` | src/lib/atemUtil.ts:10 | the bytes of `Buffer.from(str)` are at least as many as the characters |
| `AtemUtil.AsciiEncodesOneBytePerChar` | src/lib/atemUtil.ts:8-14 | an ASCII string encodes to a sequence of its own length whose i-th byte is the code of its i-th character |
| `AtemUtil.SameLengthOnlyForAscii` | src/lib/atemUtil.ts:8-14 | the encoding has the string's length if and only if the string is ASCII |
| `AtemUtil.StringToBytes` | src/lib/atemUtil.ts:8-14 | the loop's result is exactly the encoded bytes; for ASCII input it has the same length and holds the character codes |
| `AtemUtil.AdjustOffset` | src/lib/atemUtil.ts:21 | a slice offset lies in the buffer: kept inside it, clamped to the end above it, counted from the end when negative, zero below the start |
| `AtemUtil.Slice` | src/lib/atemUtil.ts:21 | a slice is never longer than end - start and is the plain subsequence when the offsets lie in the buffer |
| `AtemUtil.IndexOf` | src/lib/atemUtil.ts:22 | the result is the index of the first occurrence of the byte, or -1 when it does not occur |
| `AtemUtil.AsciiDecode` | src/lib/atemUtil.ts:23 | the decoded string has one character per byte, the byte with bit 7 cleared |
| `AtemUtil.BufToNullTerminatedString` | src/lib/atemUtil.ts:20-24 | the result is the decoded prefix of the clamped field `[start, start+length)` before its first zero byte (the whole field if none); it has at most `length` characters when `length >= 0` |
| `AtemUtil.NullTerminatedPrefix` | src/lib/atemUtil.ts:21-23 | the bytes that are decoded, namely the clamped field up to its first zero byte, contain no zero byte |
| `AtemUtil.NullTerminatedStringHasNoNul` | src/lib/atemUtil.ts:22-23 | the result holds a NUL character if and only if a 0x80 byte comes before the field's first zero byte |
| `AtemUtil.NullTerminatedStringKeepsHighBitNul` | src/lib/atemUtil.ts:23 | example: the field `41 80 42 00 43` reads back as `"A\0B"` |
| `AtemUtil.NullTerminatedStringNegativeLength` | src/lib/atemUtil.ts:21 | example: buffer `41 42 43 44` with start 1 and length -2 reads back as `"BC"` |
| `AtemUtil.NullTerminatedFieldReadsBack` | src/lib/atemUtil.ts:20-24 | a field holding a NUL-free ASCII name's codes, followed by a zero byte or the field's end, reads back as that name |
| `AtemUtil.PaddedNameField` | src/lib/atemUtil.ts:8-14 | `stringToBytes` of a NUL-free ASCII name, zero-padded to the field width, holds the name's character codes followed by a zero byte |
| `AtemUtil.NullTerminatedStringReadsBackName` | src/lib/atemUtil.ts:8-24 | a NUL-free ASCII name encoded by `stringToBytes` and zero-padded to a wider field reads back unchanged |
| `AtemUtil.GetResolution` | src/lib/atemUtil.ts:167-183 | modes 0 and 2 give 640x480, 1 and 3 give 720x576, 4-5 give 1280x720, 6-13 give 1920x1080, 14-19 give 3840x2160; there is no entry exactly when the mode is negative or at least 20 |
| `AtemUtil.CommandConnectHello` | src/lib/atemUtil.ts:91-97 | the hello packet is 20 bytes, its second byte is its length and bytes 2-3 are 0x53 0xAB |
| `AtemUtil.CommandConnectHelloAnswer` | src/lib/atemUtil.ts:99-103 | the hello answer is 12 bytes, its second byte is its length and bytes 2-3 are 0x53 0xAB |
| `AtemUtil.Swap24` | src/lib/atemUtil.ts:196-205 | the swapped data has the input's length |
| `AtemUtil.Swap24ReversesGroup` | src/lib/atemUtil.ts:198-203 | every complete 3-byte group of the output is the reversed input group |
| `AtemUtil.Swap24ChangesEndianness` | src/lib/atemUtil.ts:199-203 | each complete output group, read big-endian, equals the input's little-endian 24-bit sample |
| `AtemUtil.Swap24PartialGroup` | src/lib/atemUtil.ts:197-203 | in a trailing partial group the first byte becomes 0 and a second byte is kept |
| `AtemUtil.Swap24Involution` | src/lib/atemUtil.ts:198-203 | when the length is a multiple of 3, swapping twice restores the input |
| `AtemUtil.SwapSamples` | src/lib/atemUtil.ts:196-205 | the index loop over a zeroed buffer of the input's length produces exactly the swapped data |
| `AtemUtil.ConvertWavToRaw` | src/lib/atemUtil.ts:185-206 | data that is not 24-bit fails with the bit depth; 24-bit data without two channels fails; 24-bit stereo data yields the swapped samples |
| `AutoTransition.ToUint8` | dist/commands/MixEffects/AutoTransitionCommand.js:15 | a number stored in the buffer keeps its low 8 bits (unchanged within 0..255), and `undefined` is stored as 0 |
| `AutoTransition.SerializeMixEffect` | dist/commands/MixEffects/AutoTransitionCommand.js:13-16 | the serialization is 8 bytes: 0x44 0x41 0x75 0x74 ("DAut"), the bus index byte, then three zero bytes |
| `AutoTransition.DeserializeMixEffect` | dist/commands/MixEffects/AutoTransitionCommand.js:10-12 | a first payload byte in 0..3 becomes the bus index; a larger one fails "too big" against 3; an empty payload stores `undefined` |
| `AutoTransition.DeserializeReadsOnlyFirstByte` | dist/commands/MixEffects/AutoTransitionCommand.js:11 | payloads with the same first byte decode alike |
| `AutoTransition.RoundTrip` | dist/commands/MixEffects/AutoTransitionCommand.js:11-16 | for a bus index in 0..3, deserializing the bytes after the wire name restores the index |
| `AutoTransition.RoundTripAnyValue` | dist/commands/MixEffects/AutoTransitionCommand.js:11-16 | for any field value, the round trip yields the stored byte, or the range error when that byte exceeds 3 |
| `AutoTransition.SerializeExamples` | dist/commands/MixEffects/AutoTransitionCommand.js:11-16 | bus 2 serializes to `DAut 02 00 00 00`; index 4 is refused as too big |
| `AutoTransition.AutoTransitionCommand.constructor` | dist/commands/MixEffects/AutoTransitionCommand.js:6-9 | a new command's bus index is unset (`undefined`); its wire name is the constant field `rawName`, always `DAut` |
| `AutoTransition.AutoTransitionCommand.Deserialize` | dist/commands/MixEffects/AutoTransitionCommand.js:10-12 | on success the field takes the decoded value; on a range error the error is returned and the field keeps its old value |
| `AutoTransition.AutoTransitionCommand.Serialize` | dist/commands/MixEffects/AutoTransitionCommand.js:13-16 | the bytes depend only on the bus index and begin with the encoding of the wire name |
| `AutoTransition.AutoTransitionCommand.ApplyToState` | dist/commands/MixEffects/AutoTransitionCommand.js:17-19 | the device state is returned unchanged |
| `AutoTransition.ApplyToStateTwiceIsOnce` | dist/commands/MixEffects/AutoTransitionCommand.js:17-19 | applying the command twice gives the same state as applying it once |
| `AutoTransition.ApplyToStateIdempotent` | dist/commands/MixEffects/AutoTransitionCommand.js:17-19 | applying the command any number of times leaves the state unchanged |
| `AutoTransition.TransmitMixEffect` | dist/commands/MixEffects/AutoTransitionCommand.js:10-16 | a bus index in 0..3, serialized by one command object and deserialized by a fresh one, arrives intact |

## Left out

- `sendIPCMessage` (src/lib/atemUtil.ts:37-89): promises, timers, the retry library and child-process messaging. Timing and retry around I/O are not modelled.
- `convertRGBAToYUV422` (src/lib/atemUtil.ts:109-165): floating-point colour arithmetic with `Math.round`.
- `UInt16BEToDecibel`, `DecibelToUInt16BE`, `IntToBalance`, `BalanceToInt` (src/lib/atemUtil.ts:208-223): floating-point logarithm, power and rounding conversions.
- `bufToBase64String` (src/lib/atemUtil.ts:16-18): a thin wrapper over Node's base64 encoder.
- The WAV parser in `convertWAVToRaw` (src/lib/atemUtil.ts:186): a foreign library. `ConvertWavToRaw` takes the bit depth, channel count and sample bytes that the parser would report.
- Error message texts are not modelled, only which error is thrown and with which numbers. The channel-count message prints a misspelt property (`numChannel`) and so always shows `undefined`. For that reason `InvalidChannelCount` carries no value.
- `StringToBytes`: JavaScript strings may hold lone UTF-16 surrogates, which Node encodes as U+FFFD. Dafny characters are Unicode scalar values, so such strings cannot be expressed.
- Numbers are integers. Non-integer or NaN arguments to `parseNumberBetween`, `getResolution` and the slice offsets are not modelled.
- `getResolution`: the `VideoMode` enum is not part of this model. The function takes any integer mode.
- `ApplyToState`: the device state tree is not part of this model. The command's no-op is stated over an arbitrary state value.
- Dispatch by wire name, applying commands to the device state, and the other command variants (for example `DownstreamKeyCutSourceCommand`) are not modelled.
- The test helper `src/__tests__/util.ts` wraps an object-mapping library and has no protocol logic.
