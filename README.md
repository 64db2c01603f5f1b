# cFS command encoder, modelled in Dafny

This project models the telecommand encoder used to drive a NASA core
Flight System (cFS) instance through its CI_LAB UDP ingest. The encoder
builds a CCSDS Space Packet with these parts:

- a primary header as laid down in section 4.1.3 of CCSDS 133.0-B-2:
  version 0, type 1 (command), secondary-header flag 1, an 11-bit APID,
  sequence flags 11 (unsegmented), a 14-bit sequence count and the 16-bit
  data length;
- the two-byte cFS command secondary header, holding the function code and
  a checksum;
- the command payload.

The checksum byte is chosen so that the XOR of every byte of the packet is
zero. The model also covers:

- the topic-id to message-id mapping;
- the DISPLAY_PARAM payload of the cFS sample application;
- the NOOP packets the scripts send;
- the case-insensitive letter counters of the MCP server;
- its iterative Fibonacci.

The modules:

- `Bytes` (`bytes.dfy`) holds the byte-level vocabulary.
  - A byte is an `int` in 0..255, and fields are unbounded integers, as in
    Python.
  - Python's `|` and `^` on non-negative integers are the recursive
    `BitOr` and `BitXor`, and `<<` is `Shl`.
  - A mask `x & (2^k - 1)` is the Euclidean `x % 2^k`. This agrees with
    Python for negative `x` too.
  - Big-endian packing (`>H`, `>HHH`, `>I`, `>h`) is written out byte by
    byte, along with its decoders.
  - `XorFold` is the XOR of a byte sequence, folded from the left.
- `CfsCommands` (`cfs_commands.dfy`) holds the encoder of
  `cfs_commands.py` and its properties:
  - the exact layout;
  - the header decodes back to its fields, and a header with the command
    bits re-encodes to itself;
  - masking insensitivity and an if-and-only-if for packet equality;
  - the length field;
  - the checksum fixpoint;
  - the NOOP packet 18 06 C0 01 00 01 00 DE;
  - the DISPLAY_PARAM payload, with the defect described under Findings.
- `McpServer` (`mcp_server.dfy`) holds the copy of the encoder in `mcp_server.py`.
- `TestNoop` (`test_noop.dfy`) holds the constants and the one packet of
  the stand-alone NOOP sender, with its copy of the encoder.
- `Server` (`server.dfy`) holds `count_r`, `count_vowels` and `fibonacci`.

`mcp_server.py` and `test_noop.py` each carry their own copy of the header
builder, checksum loop and packet builder. `mcp_server.py` also copies the
mapping. The copies match `cfs_commands.py` line for line in everything
but comments. The modules `McpServer` (`mcp_server.dfy`) and `TestNoop`
transcribe each copy and prove it equal to the shared definition in
`CfsCommands`, so every property proved there carries over. The checksum
loop of each copy is its own method, proved against `XorFold`.

Where the source ORs two values with disjoint bits, the function body
writes the sum that the OR equals. These are the message id, the packet id
and the sequence control word. A lemma proves each sum equal to the
bitwise OR the source computes: `TopicIdToMidIsOr`, `HeaderWordsAreOr`,
`FlagValues`, `SampleAppCmdMidValue` and `TestNoop.EsCmdMidValue`.

The DISPLAY_PARAM payload is 4 + 2 + 32 = 38 bytes and its packet 46;
building the payload raises when val_i16 mod 65536 > 32767.

## Model

| member | source | states |
|---|---|---|
| Bytes.XorFold | cfs_commands.py:66-74 | the XOR fold of any byte sequence is a byte (0..255) |
| Bytes.XorFoldConcat | cfs_commands.py:71-73 | the fold of a concatenation is the XOR of the folds of the parts |
| Bytes.XorFoldFixpoint | cfs_commands.py:95-100 | when byte k is 0, writing the fold of the sequence into byte k makes the fold of the result 0 |
| Bytes.BitXor | cfs_commands.py:73 | `^` computed bit by bit; the result never exceeds the sum, and `BitXorBound`, `BitXorSelf` and `BitXorAssoc` give its algebra |
| Bytes.BitOr | cfs_commands.py:61-62 | `\|` computed bit by bit; the result is at least either operand and at most their sum, and `BitOrDisjoint` makes it a sum on disjoint bits |
| Bytes.Shl | cfs_commands.py:61-62 | `<<` by one doubling per position equals multiplication by 2^n |
| Bytes.BitXorAssoc | cfs_commands.py:71-73 | XOR is associative, which lets the fold be split at any byte |
| Bytes.BitXorSelf | cfs_commands.py:95-97 | a value XOR itself is 0, the cancellation the checksum relies on |
| Bytes.BitOrDisjoint | cfs_commands.py:61-62 | OR-ing below bit k into a multiple of 2^k is addition |
| Bytes.PackU16x3 | cfs_commands.py:63 | `>HHH` gives 6 bytes whose three big-endian 16-bit fields are the three arguments |
| Bytes.PackU16 | cfs_commands.py:63 | `>H` gives 2 bytes decoding to the argument |
| Bytes.UnpackU16Injective | cfs_commands.py:63 | two 2-byte fields are equal exactly when their 16-bit values are |
| Bytes.PackU32 | cfs_commands.py:142 | `>I` gives 4 bytes decoding big-endian to the argument |
| Bytes.PackI16 | cfs_commands.py:142 | `>h` fails with a struct error exactly outside -32768..32767, else gives 2 bytes decoding as two's complement to the argument |
| Bytes.UnpackI16 | cfs_commands.py:142 | a two's-complement 16-bit value lies in -32768..32767 and agrees with the unsigned value modulo 2^16 |
| CfsCommands.TopicIdToMid | cfs_commands.py:38-39 | the message id lies in 0x1800..0x1FFF, has 3 above bit 10 and the topic's low 11 bits below |
| CfsCommands.TopicIdToMidIsOr | cfs_commands.py:38-39 | the message id equals the command base OR-ed with the topic masked to 11 bits |
| CfsCommands.SampleAppCmdMidValue | cfs_commands.py:24-25 | the sample application's message id is the base OR its topic 0x82, which is the mapped topic 0x82 |
| CfsCommands.EsTopicMid | cfs_commands.py:175-178 | topic 6 maps to message id 0x1806 |
| CfsCommands.FlagValues | cfs_commands.py:61-62 | the shifted-and-OR-ed flag constants are 0x1800 and 0xC000 |
| CfsCommands.PrimaryHeader | cfs_commands.py:51-63 | the header is 6 bytes: big-endian 0x1800 plus the id's low 11 bits, 0xC000 plus the count's low 14 bits, and the length masked to 16 bits |
| CfsCommands.HeaderWordsAreOr | cfs_commands.py:61-62 | the packet id and sequence control of the header are the ORs the source computes |
| CfsCommands.DecodeEncodedHeader | cfs_commands.py:51-63 | decoding a built header gives version 0, type 1, secondary-header flag 1, sequence flags 3 and the masked APID, count and length |
| CfsCommands.EncodeDecodedHeader | cfs_commands.py:51-63 | every 6-byte header with those fixed bits is the header built from its own decoded fields |
| CfsCommands.HeaderFieldIsolation | cfs_commands.py:61-63 | changing the count leaves the packet id and length field unchanged; changing the id leaves the other four bytes unchanged |
| CfsCommands.ChecksumXor | cfs_commands.py:66-74 | the loop returns the XOR fold of the packet, a value in 0..255 |
| CfsCommands.BuildCommand | cfs_commands.py:77-102 | the packet is 8 + len(payload) bytes: the header with length len(payload)+1, the code masked to 8 bits at byte 6, and the payload unchanged from byte 8 |
| CfsCommands.ChecksumByte | cfs_commands.py:95-100 | byte 7 is the XOR fold of the same packet with byte 7 set to 0 |
| CfsCommands.ChecksumFixpoint | cfs_commands.py:95-100 | the XOR fold of every built packet is 0 |
| CfsCommands.LengthField | cfs_commands.py:88-89 | bytes 4-5 hold (len(payload)+1) mod 65536, the byte count after the header minus one |
| CfsCommands.DecodeCommandHeader | cfs_commands.py:85-100 | a receiver decodes the fixed bits, the masked id and count, and the length from a built packet |
| CfsCommands.MaskingInsensitive | cfs_commands.py:77-102 | the packet is unchanged when the id is masked to 11 bits, the code to 8 bits and the count to 14 bits |
| CfsCommands.SamePacketIff | cfs_commands.py:77-102 | two packets are equal if and only if their masked ids, codes, counts and payloads are |
| CfsCommands.MidBaseIgnored | cfs_commands.py:172-183 | addressing by the mapped message id gives the same packet as addressing by the bare topic |
| CfsCommands.NoopChecksum | cfs_commands.py:95-98 | the provisional NOOP packet folds to 0xDE |
| CfsCommands.EsNoopPacket | cfs_commands.py:172-183 | the ES NOOP (topic 6, code 0, empty payload, count 1) is the 8 bytes 18 06 C0 01 00 01 00 DE |
| CfsCommands.SampleAppPacket | cfs_commands.py:118-130 | the NOOP, RESET_COUNTERS and PROCESS commands are 8 bytes: header 18 82 C0 01 00 01, the code, and a checksum that zeroes the fold |
| CfsCommands.AsciiBytes | cfs_commands.py:138 | ASCII encoding with errors ignored yields no more bytes than characters, each below 128 |
| CfsCommands.AsciiBytesConcat | cfs_commands.py:138 | the encoding distributes over concatenation |
| CfsCommands.AsciiBytesNonAscii | cfs_commands.py:138 | a text of only non-ASCII characters encodes to no bytes: they are dropped, not replaced |
| CfsCommands.AsciiBytesOfAscii | cfs_commands.py:138 | an all-ASCII text encodes character for character |
| CfsCommands.FixedWidth | cfs_commands.py:139-140 | the text is cut or zero-padded to exactly the width, byte i being the text's byte i or 0 |
| CfsCommands.DisplayParamPayload | cfs_commands.py:138-143 | raises exactly when val_i16 mod 65536 > 32767; otherwise 38 bytes, the masked u32 big-endian, that 16-bit value, then the 32-byte text field |
| CfsCommands.NegativeI16Rejected | cfs_commands.py:142 | every negative val_i16 in the int16 range makes the payload raise |
| CfsCommands.DisplayParamPayloadSigned | cfs_commands.py:138-143 | the corrected payload is 38 bytes with the u32 field, val_i16 in two's complement and the 32-byte text field |
| CfsCommands.DisplayParamAgrees | cfs_commands.py:142 | wherever the as-written payload succeeds it equals the corrected one |
| CfsCommands.DisplayParamHeader | cfs_commands.py:145 | a 38-byte payload sent as DISPLAY_PARAM gets header 18 82 C0 01 00 27 (id 0x1882, count 1, length 39) and code 3 at byte 6 |
| CfsCommands.DisplayParamCommandAsWritten | cfs_commands.py:138-145 | the command fails exactly when the payload raises (val_i16 mod 65536 > 32767); otherwise it is 46 bytes with header 18 82 C0 01 00 27, code 3 at byte 6, the as-written payload from byte 8, and it folds to 0 |
| CfsCommands.DisplayParamCommand | cfs_commands.py:145 | the DISPLAY_PARAM packet over the corrected payload is 46 bytes for every input, with header 18 82 C0 01 00 27, code 3 at byte 6, that payload from byte 8, and it folds to 0 |
| CfsCommands.DisplayParamCommandAgrees | cfs_commands.py:145 | wherever the as-written command succeeds it equals the corrected one |
| McpServer.TopicIdToMid | mcp_server.py:17-18 | the message id lies in 0x1800..0x1FFF with the topic's low 11 bits, and equals the shared mapping |
| McpServer.PrimaryHeader | mcp_server.py:30-42 | equals the shared header builder; the header is 6 bytes: big-endian 0x1800 plus the id's low 11 bits, 0xC000 plus the count's low 14 bits, and the length masked to 16 bits |
| McpServer.ChecksumXor | mcp_server.py:45-53 | the loop returns the XOR fold of the packet, a value in 0..255 |
| McpServer.BuildCommand | mcp_server.py:56-81 | equals the shared builder; the packet is 8 + len(payload) bytes: the header with length len(payload)+1, the code masked to 8 bits at byte 6, and the payload unchanged from byte 8 |
| McpServer.MaskingInsensitive | mcp_server.py:64-79 | only the low 11 bits of the id, 14 of the count and 8 of the code reach the packet |
| McpServer.LengthField | mcp_server.py:67-68 | the length field is (len(payload)+1) mod 65536 |
| McpServer.ChecksumFixpoint | mcp_server.py:74-79 | the XOR fold of the built packet is 0, and byte 7 is the fold of the packet with byte 7 set to 0 |
| McpServer.ExampleNoop | mcp_server.py:95-103 | topic 6 maps to 0x1806 and the example packet is the ES NOOP 18 06 C0 01 00 01 00 DE |
| TestNoop.PrimaryHeader | test_noop.py:24-28 | equals the shared header builder; the header is 6 bytes: big-endian 0x1800 plus the id's low 11 bits, 0xC000 plus the count's low 14 bits, and the length masked to 16 bits |
| TestNoop.ChecksumXor | test_noop.py:31-36 | the loop returns the XOR fold of the packet, a value in 0..255 |
| TestNoop.BuildCommand | test_noop.py:39-52 | equals the shared builder; the packet is 8 + len(payload) bytes: the header with length len(payload)+1, the code masked to 8 bits at byte 6, and the payload unchanged from byte 8 |
| TestNoop.LengthField | test_noop.py:42-43 | the length field is (len(payload)+1) mod 65536 |
| TestNoop.ChecksumFixpoint | test_noop.py:48-50 | the XOR fold of the built packet is 0, and byte 7 is the fold of the packet with byte 7 set to 0 |
| TestNoop.EsCmdMidValue | test_noop.py:18-20 | ES_CMD_MID is the base OR topic 6, which is 0x1806 and also the mapped topic 6 |
| TestNoop.NoopPacket | test_noop.py:64-66 | the NOOP packet is exactly 18 06 C0 01 00 01 00 DE and folds to 0 |
| Server.LowerChar | server.py:25 | ASCII upper-case letters are shifted to lower case, every other character is kept |
| Server.Lower | server.py:25 | lower-casing keeps the length and lowers each character by `LowerChar` |
| Server.Count | server.py:25 | a character count is at most the length |
| Server.CountIsMultiplicity | server.py:25 | the count of a character is its multiplicity in the text |
| Server.CountLower | server.py:25 | counting a lower-case letter after lower-casing counts both of its cases |
| Server.CountR | server.py:20-25 | count_r is at most the length of the word |
| Server.CountRSpec | server.py:20-25 | count_r is the number of r plus the number of R in the word |
| Server.CountVowels | server.py:29-34 | the sum of the counts of a, e, i, o and u in the lowered word; `CountVowelsSpec` and `CountVowelsBound` give its meaning |
| Server.CountVowelsSpec | server.py:29-34 | count_vowels is the sum of the counts of a, e, i, o and u in both cases |
| Server.CountVowelsStep | server.py:34 | each character adds one to the vowel count if it is a vowel of either case, else nothing |
| Server.CountVowelsBound | server.py:34 | count_vowels is at most the length of the word |
| Server.Fibonacci | server.py:38-51 | returns n for n <= 1, negative n included, and the Fibonacci number F(n) for n >= 2 |
| Server.FibonacciRecurrence | server.py:44-51 | for n >= 2 the result is the sum of the results for n-1 and n-2 |

## Left out

- UDP transport (`send_ci_lab` in all three scripts): socket I/O. The
  model ends with the packet that would be sent.
- `send_command` and the send step of the `sample_app_*` functions: I/O
  glue. The packets they would send are `SampleAppPacket` and
  `DisplayParamCommandAsWritten` (which fails where the source raises);
  `DisplayParamCommand` is the same command over the corrected payload.
- The returned status strings and the `print` calls: output only.
- `set_attitude_demo`: floating-point scaling and rounding for a command
  the target does not implement.
- The import of `config.py` and its fallback address and port:
  environment configuration.
- The MCP server plumbing in `server.py`:
  - tool registration;
  - the SIGINT handler;
  - the `try`/`except` wrappers;
  - the `isinstance` guards, which static types make moot.
- Server.LowerChar: full Unicode `str.lower()` is not modelled. Only A-Z
  are lowered, so a character such as U+0130, which Python lower-cases to
  a string containing `i`, is not counted here.
- CfsCommands.DisplayParamPayload: the case where `val_str` is `None` is
  not modelled, because a Dafny `string` is never absent. The model takes
  the text after the `or ""` fallback.
- CfsCommands.ChecksumXor: the source's checksum is only the XOR fold.
  No other checksum strategy exists, so none is modelled.

## Findings

| source | as written | input that shows it | evidently intended | confidence | as-written member | corrected member |
|---|---|---|---|---|---|---|
| cfs_commands.py:142 | the int16 field is masked to 0..65535 and then packed with the signed `>h` format, which accepts only -32768..32767 | val_i16 = -1; the masked value 65535 makes `struct.pack` raise, so DISPLAY_PARAM cannot carry any negative value | pack the masked value with `>H` (the same as packing val_i16 with `>h` when val_i16 is in -32768..32767), giving two's-complement bytes | not executed | CfsCommands.NegativeI16Rejected | CfsCommands.DisplayParamPayloadSigned |
