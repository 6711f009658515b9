# heartbeat command — Dafny model

This project models the `heartbeat` sub-command of the steamcmd health-check tool. The command sends one UDP probe packet to a game server and optionally waits for a reply. The model covers everything the command does before the socket is opened:

- the default probe packet, Valve's A2S_INFO query (`0xFF 0xFF 0xFF 0xFF "TSource Engine Query" 0x00`);
- `decodeHexPacket`, which turns the `--packet-hex` override into bytes. It trims white space, drops one leading lower-case `0x`, removes spaces, rejects an odd byte count, and decodes pairs of hex digits;
- the checks of `RunE`, in source order:
  - packet selection (a blank override keeps the default; any other override is decoded, and a decoding error stops the command);
  - non-blank host;
  - port in 1..65535;
  - positive timeout;
  - non-empty packet;
- the `internal.Heartbeat` value that `RunE` hands to `internal.Send`, with `Timeout = time.Duration(timeout) * time.Second`;
- the way `RunE` passes `Send`'s error through unchanged.

Files:

- `go_base.dfy` (module `GoBase`): Go's `byte` and 64-bit `int`, two's-complement wrap-around, and the (value, error) result pair.
- `go_strings.dfy` (module `GoStrings`): the library functions the command relies on, with `unicode.IsSpace`'s exact white-space set.
  - `strings.TrimSpace`, `strings.TrimPrefix` and `strings.ReplaceAll` with a one-character pattern.
  - The UTF-8 encoding that `[]byte(s)` and `len(s)` see.
- `hex.dfy` (module `Hex`): `encoding/hex` decoding as the standard library performs it. Pairs are read left to right, the first byte that is not a hex digit is the one reported, and a lone trailing digit gives the length error. `EncodeToString` is included as the inverse used for the round trips.
- `heartbeat_cmd.dfy` (module `HeartbeatCmd`): `cmd/heartbeat.go` itself.

Go strings are byte strings. Here a string is a sequence of Unicode scalar values, and `Bytes` is the UTF-8 encoding Go would hold. The odd-length check is therefore stated on `|Bytes(Clean(s))|`, exactly as Go's `len` counts. A non-ASCII character in the override is reported as an invalid byte: its first UTF-8 byte, when the length is even.

Go's `int` is taken to be 64 bits wide. `time.Duration(sec) * time.Second` wraps in Go, and `ToDuration` wraps the same way. So a `--timeout` above `MaxTimeoutSec` (9223372036 seconds) passes the "timeout must be > 0" check but no longer yields its true duration. From 9223372037 to 18446744073 seconds the duration is negative (`TimeoutNegativeRange`; `TimeoutOverflow` exhibits the first such input). Larger values wrap to any 64-bit value, positive or not: 18446744074 seconds gives 0.29 seconds (`TimeoutWrapsPositive`).

## Model

| member | source | states |
|---|---|---|
| HeartbeatCmd.DefaultPacket | cmd/heartbeat.go:24-30 | the default probe packet; its layout is stated by `DefaultPacketLayout` |
| HeartbeatCmd.DefaultPacketLayout | cmd/heartbeat.go:24-30 | the default packet is 25 bytes: four 0xFF, the 20 characters of "TSource Engine Query", then 0x00 |
| HeartbeatCmd.Clean | cmd/heartbeat.go:125-127 | the text `decodeHexPacket` decodes: trimmed, one lower-case "0x" dropped, spaces removed; stated by `CleanStripsOnePrefix`, `CleanIgnoresInteriorSpace`, `CleanHexText` and `CleanBareText` |
| HeartbeatCmd.DecodeHexPacket | cmd/heartbeat.go:124-139 | `decodeHexPacket`; its result for every input is stated by `DecodeHexPacketOutcome` and `DecodeHexPacketValue` |
| HeartbeatCmd.DecodeHexPacketOutcome | cmd/heartbeat.go:124-139 | the even-length error is returned exactly when the cleaned text has an odd number of bytes, before any digit is examined; decoding succeeds exactly when the cleaned text has even length and only hex digits; otherwise the first byte that is not a hex digit is reported |
| HeartbeatCmd.DecodeHexPacketValue | cmd/heartbeat.go:133-138 | when the cleaned text is an even number of hex digits, decoding succeeds with half as many bytes, and byte i is 16 × digit 2i + digit 2i+1 |
| HeartbeatCmd.DecodeHexPacketRoundTrip | cmd/heartbeat.go:124-139 | the lower-case hex text of any byte sequence decodes back to exactly that sequence |
| HeartbeatCmd.DecodeHexPacketOfHexText | cmd/heartbeat.go:124-139 | an even number of hex digit characters is decoded by `hex.DecodeString` without error, and the packet is exactly what it returns: cleaning changes nothing |
| HeartbeatCmd.DecodeIgnoresSurroundingSpace | cmd/heartbeat.go:125 | white space around the override never changes the decoding result |
| HeartbeatCmd.CleanStripsOnePrefix | cmd/heartbeat.go:126 | one leading lower-case "0x" in front of text that does not itself start with "0x" is dropped |
| HeartbeatCmd.DecodeStripsOnePrefix | cmd/heartbeat.go:126 | a leading "0x" does not change the decoding result |
| HeartbeatCmd.CleanIgnoresInteriorSpace | cmd/heartbeat.go:125-127 | a space anywhere in text that does not start or end with other white space is removed, unless it splits the "0x" prefix; applied once per space, every space goes |
| HeartbeatCmd.DecodeIgnoresInteriorSpace | cmd/heartbeat.go:127 | such a space does not change the decoding result |
| HeartbeatCmd.DecodeSeveralSpaces | cmd/heartbeat.go:127 | every space is removed, not just one: "ff ff ff" decodes like "ffffff" |
| HeartbeatCmd.CleanHexText | cmd/heartbeat.go:125-127 | text made only of hex digits is decoded as given |
| HeartbeatCmd.CleanBareText | cmd/heartbeat.go:125-127 | text with no surrounding white space, no space and no "0x" prefix is decoded as given |
| HeartbeatCmd.DecodeDocumentedExample | cmd/heartbeat.go:121 | the override shown in the command's example decodes to exactly the default packet |
| HeartbeatCmd.DecodeFiveBytes | cmd/heartbeat.go:133 | "ffffffff00" decodes to FF FF FF FF 00 |
| HeartbeatCmd.DecodeOddLength | cmd/heartbeat.go:129-131 | "fff" and "xyz" both give the even-length error: the length is checked before the digits |
| HeartbeatCmd.DecodeNormalises | cmd/heartbeat.go:125-127 | " 0xff ff " and "ffff" decode alike, to FF FF |
| HeartbeatCmd.DecodeUpperPrefix | cmd/heartbeat.go:126 | "0X" is not a prefix: "0Xff" fails on the byte 'X' |
| HeartbeatCmd.DecodeInteriorTab | cmd/heartbeat.go:127 | only spaces are removed: the tab in "ff\tf" is reported as an invalid byte |
| HeartbeatCmd.DecodeSplitPrefix | cmd/heartbeat.go:126-127 | the prefix is dropped before spaces are removed, so "0 xff" fails on its 'x' |
| HeartbeatCmd.DecodeDoublePrefix | cmd/heartbeat.go:126 | only one "0x" is dropped: "0x0xff" fails on its second 'x' |
| HeartbeatCmd.DecodeBarePrefix | cmd/heartbeat.go:126-133 | a bare "0x" decodes to an empty packet, not an error |
| HeartbeatCmd.SelectPacket | cmd/heartbeat.go:43-53 | a blank override (white space only) keeps the default packet; any other override is decoded, and its decoding error is the result |
| HeartbeatCmd.PacketSelection | cmd/heartbeat.go:43-53 | an empty or white-space override selects the default packet; the hex text of any non-empty packet, with white space around it, selects exactly that packet |
| HeartbeatCmd.ToDuration | cmd/heartbeat.go:73 | the timeout in nanoseconds is sec × 10^9 whenever that fits in 64 bits, positive for positive sec, and always congruent to it modulo 2^64 |
| HeartbeatCmd.Failures | cmd/heartbeat.go:43-66 | the checks of `RunE` that the flags fail, in source order; `Validate` and `Run` are stated against it |
| HeartbeatCmd.FailuresGiven | cmd/heartbeat.go:43-66 | the same list given the outcome of packet selection; `Check` is stated against it |
| HeartbeatCmd.Validate | cmd/heartbeat.go:43-74 | the command fails before sending exactly when the list of failing checks is non-empty, and reports the first of them in source order; on success the heartbeat carries host, port and recv-response unchanged, the selected packet and the converted timeout, and the packet is non-empty, the host non-blank and the port in range |
| HeartbeatCmd.Check | cmd/heartbeat.go:43-74 | given the outcome of packet selection, the same promises as `Validate`: the first failing check in source order, or the heartbeat built from the flags |
| HeartbeatCmd.Run | cmd/heartbeat.go:86-104 | a failing check is returned without sending; when every check passes the validated heartbeat is sent, and a send error is returned unchanged as the command's error; the command succeeds exactly when all checks pass and the send succeeds |
| HeartbeatCmd.EmptyOverride | cmd/heartbeat.go:45-66 | an override that is not blank but decodes to no bytes does not fall back to the default; with otherwise valid flags the command stops with "packet cannot be empty" |
| HeartbeatCmd.BarePrefixOverride | cmd/heartbeat.go:45-66 | a "0x" override is not blank, so it does not fall back to the default; with otherwise valid flags the command stops with "packet cannot be empty" |
| HeartbeatCmd.DefaultInvocation | cmd/heartbeat.go:111-115 | with every flag at its default the command sends the default packet to 127.0.0.1:27015, waiting for a reply, with a 2-second timeout |
| HeartbeatCmd.TimeoutOverflow | cmd/heartbeat.go:61-73 | a timeout of 9223372037 seconds passes validation but gives a negative duration (-9223372036709551616 ns) |
| HeartbeatCmd.TimeoutNegativeRange | cmd/heartbeat.go:73 | every timeout from 9223372037 to 18446744073 seconds gives a negative duration, 2^64 below the true nanosecond count |
| HeartbeatCmd.TimeoutWrapsPositive | cmd/heartbeat.go:61-73 | a timeout of 18446744074 seconds passes validation with a positive duration of 290448384 ns |
| GoStrings.TrimSpace | cmd/heartbeat.go:125 | `strings.TrimSpace`; stated by `TrimSpaceSplit`, `TrimSpaceBlank` and `TrimSpaceIgnoresSurroundingSpace` |
| GoStrings.TrimSpaceSplit | cmd/heartbeat.go:125 | any text is its trimmed core with only white space on either side, and the core neither starts nor ends with white space |
| GoStrings.TrimSpaceBlank | cmd/heartbeat.go:45 | trimming leaves nothing exactly when the text is all white space |
| GoStrings.TrimSpaceIgnoresSurroundingSpace | cmd/heartbeat.go:45 | white space added around a text does not change what trimming returns |
| GoStrings.TrimPrefix | cmd/heartbeat.go:126 | `strings.TrimPrefix`; its effect on the override is stated by `CleanStripsOnePrefix`, `DecodeDoublePrefix` and `DecodeUpperPrefix` |
| GoStrings.RemoveAll | cmd/heartbeat.go:127 | no space is left after removal, and the result is no longer than the input |
| GoStrings.RemoveAllKeepsOthers | cmd/heartbeat.go:127 | every character other than the removed one is kept as often as it occurred |
| GoStrings.Bytes | cmd/heartbeat.go:129 | the UTF-8 bytes of a string; stated by `BytesLength` and `BytesOfAscii` |
| GoStrings.BytesLength | cmd/heartbeat.go:129 | the byte count is at least the character count, with equality exactly for ASCII text |
| GoStrings.BytesOfAscii | cmd/heartbeat.go:129-133 | text is ASCII exactly when its bytes are; the bytes of ASCII text are the character codes, one per character |
| Hex.Decode | cmd/heartbeat.go:133 | `hex.Decode`; stated by `DecodeSucceeds`, `DecodeValue`, `DecodeFirstInvalid` and `DecodeOddLength` |
| Hex.DecodeString | cmd/heartbeat.go:133 | `hex.DecodeString`: `Decode` on the string's bytes |
| Hex.DecodeSucceeds | cmd/heartbeat.go:133 | decoding succeeds exactly for an even number of hex digits |
| Hex.DecodeValue | cmd/heartbeat.go:133 | an even number of hex digits decodes to half as many bytes, byte i built from digits 2i and 2i+1 |
| Hex.DecodeFirstInvalid | cmd/heartbeat.go:133 | when some byte is not a hex digit, the first such byte is the one reported |
| Hex.DecodeOddLength | cmd/heartbeat.go:133 | an odd number of hex digits gives the length error |
| Hex.DecodeEncode | cmd/heartbeat.go:133 | decoding the hex text of any byte sequence gives that sequence back |
| Hex.EncodeDecode | cmd/heartbeat.go:133 | re-encoding whatever decodes gives the decoded text in lower case |

## Left out

- `internal.Send` (internal/heartbeat.go): the UDP dial, deadline, write and optional read are network I/O. `Run` takes the send as a function parameter and models only how its error is passed through.
- `HeartbeatError` message formatting (internal/heartbeat.go) and the wording of the `fmt.Errorf` messages in cmd/heartbeat.go. Each error is an enumerated case instead.
- The verbose logger and its RFC 3339 time stamps: logging has no effect on the result, and clocks are outside the model.
- cobra's flag parsing and registration, `cmd/root.go` and `main.go`. Flags arrive already parsed as a `Flags` value; `DefaultFlags` records the registered defaults.
- Go strings that are not valid UTF-8 cannot be written as Dafny strings, so the model does not cover such overrides.
- Go's `int` is assumed to be 64 bits wide; on a 32-bit platform the port and timeout would wrap at other bounds.
- `append([]byte(nil), defaultPacket...)` copies the default packet so that the global is never aliased; values have no aliasing, so the copy is implicit.
