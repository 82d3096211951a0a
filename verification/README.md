# Verified models of the feed's C programs

Most of this package feed is build recipes, but eight of its C files hold algorithms of
their own. This project models those algorithms in Dafny and proves what they are for.
Each file below can be read by itself; `dafny verify dfyconfig.toml` checks all of them.

| program | Dafny files | what is proved |
|---|---|---|
| libs/libiconv/src/iconv.c | Utf8, Charsets, Iconv, IconvText, IconvCodes, IconvRun | the UTF-8 codec is a two-sided inverse; a text may be cut into calls of any size; output is well formed; texts come back; every charset means what its standard says |
| utils/calvaria/files/src/calvaria.c | Crc, Crc32, Crc32Check, Crc32Known, SectionScan, DumpImage, SectionImage | the polynomial and a known checksum; CRC-32 notices every burst of 32 bits; the search finds the section it should, as it was written; the dump visits exactly the selected sections |
| utils/calvaria/files/src/cal2p54.c | Crc, Nibbles, CcittTable, CrcCcitt | the table is the bitwise register; pieces and whole agree; the residue constant, and errors that always spoil it |
| net/ttcp/ttcp.c | Ttcp | loss and sequence accounting is exact for every pattern of dropped packets, and when it is not |
| net/openl2tp/src/l2tp_rpc_xdr.c | Xdr, XdrExact, XdrStream, L2tpRoutines, L2tpTransfer, L2tpMessages, L2tpFields | messages round-trip whichever blocks either side moves directly; what each field holds and which messages can be sent |
| net/wiviz/src/wiviz.c | HostTable | the host table stays sound over every run; 130 addresses never lose one, 131 can |
| admin/debootstrap/files/pkgdetails.c | PkgDetails, PkgStanzas, PkgFields, PkgText | one answer per requested package, which stanza it is, where its fields come from, and the line printed for a file as it is written |
| utils/wattsup/src/wattsup.c | WattsUp | parsing undoes printing, exactly for packets that have fields and only clean ones |

Words, Wrappers and CLibrary hold what several models share: bytes and machine words, the
usual datatypes, and the C library's character classes.

How a model is laid out: what a C function does is written as a function over values (a
decoder, a register after some bits, a receiver after some packets). Where the C code works
step by step, a method with the same loop, on an array or on the fields of a class, is proved
equal to that function. The lemmas are about the function, so they hold for the method.

Words are natural numbers: `>> 1` is division by two, the OR of bytes that do not overlap is a
sum, exclusive OR is defined bit by bit, and wrap-around is written out with `%`.

Properties that turn out false of the code, each with the exact condition under which they hold:

- UTF-16 output is the standard's only for characters below U+10000: nothing is subtracted
  before the surrogates are formed (`IconvText.SpellsStandardUtf16`, `Charsets.Utf16IsStandardIff`).
- A byte that cannot start a UTF-8 sequence is reported as input that ends too early, for ever
  (`Utf8.StarvedForEver`): the length -1 is compared as an unsigned number.
- An 8-bit map with a surrogate in it makes the UTF-8 output ill formed
  (`IconvText.OutputIsUtf8Iff`).
- The ttcp loss count is exact only if the count is not negative and the receive buffer holds the
  whole of it, or what lies behind the buffer happens to agree (`Ttcp.LossIsExact`); gaps whose
  length is a multiple of 256 are never reported (`Ttcp.SilentGaps`).
- When the end packets of one ttcp test are all lost and another test follows, the loss reported is
  the second one's only if no data packet of the first arrived (`Ttcp.SecondTestIsExact`).
- A conversion call that returns -1 hides the asterisks it has written; the results of a session add
  up to what was written only if no such call had written one (`Iconv.CountsAddUp`, with
  `Iconv.CountIsLost` as an example).
- A boolean other than 0 and 1 is written differently on the direct path and by the calls
  (`L2tpRoutines.MixWritesTheSame`).
- A Watts Up field with a separator in it or white space in front of it is not recovered, and a
  packet without fields, which can be printed, is refused (`WattsUp.RoundTrip`).
- The host table can lose an address as soon as there are 131 (`HostTable.OneMoreIsLost`); over a run of
  calls none is ever missing if and only if no call evicts one (`HostTable.NothingLostIff`).
- A stanza of a package file that lacks a field is answered with the field of an earlier stanza. Its
  line is its own, whatever came before, only if it has all five fields (`PkgFields.OwnLineIff`).
- With the "last index" mode, `find_section` reports -1 when a later section is cut short, even if
  it had already found one (`SectionScan.FindSection`, with `SectionScan.CutSectionHidesMatch` as an
  example).

## Model

| member | source | states |
|---|---|---|
| Utf8.DecIff | libs/libiconv/src/iconv.c:132-245 | The decoder takes exactly the encodings of the scalar values other than U+FFFE and U+FFFF: it undoes the encoder before any tail, and no character has a second, longer form. |
| Utf8.EncIsWellFormed | libs/libiconv/src/iconv.c:132-160 | What the encoder writes for a scalar value is in the grammar of RFC 3629, section 4, and has that code. |
| Utf8.WellFormedIsEnc | libs/libiconv/src/iconv.c:132-160 | Every sequence of that grammar is what the encoder writes for its code. |
| Utf8.DecReadsWellFormed | libs/libiconv/src/iconv.c:162-245 | Every well-formed sequence is read as its code, except the two refused codes, which are illegal. |
| Utf8.DecReadsOnlyWellFormed | libs/libiconv/src/iconv.c:199-245 | Whatever is read with a code in range was well formed: overlong forms and surrogates are not accepted. |
| Utf8.DecIsStable | libs/libiconv/src/iconv.c:199-245 | Once a character or an error has been found, further input does not change it. |
| Utf8.StarvedForEver | libs/libiconv/src/iconv.c:202-219 | The decoder asks for more input for ever exactly at the bytes 80 to BF, FE and FF. |
| Charsets.ComesBackIff | libs/libiconv/src/iconv.c:281-417 | For every target charset, the scalar values that are read back from what is written for them, whatever follows, are exactly the codable ones. |
| IconvCodes.ByteIsRead | libs/libiconv/src/iconv.c:281-371 | In every one-byte charset a byte is read as the character that the charset's standard gives it, and refused if it gives none; an 8-bit map refuses the entry FFFF. |
| IconvCodes.ConvertsBytes | libs/libiconv/src/iconv.c:281-435 | A string of such bytes is converted into the target's spelling of the standard's text, all of it. |
| IconvCodes.StopsAtByte | libs/libiconv/src/iconv.c:297-366 | At a byte that stands for nothing the call stops with EILSEQ and reads no further. |
| IconvCodes.ReadsUtf8 | libs/libiconv/src/iconv.c:291-296 | A UTF-8 source gives exactly the encodings of unreserved scalar values, waits for as many bytes as the lead announces, and for ever at a byte that announces none. |
| IconvCodes.ReadsUtf16 | libs/libiconv/src/iconv.c:320-333 | Two bytes in the right order are a UTF-16 unit; a high surrogate is waited on until four bytes are there, and no surrogate is accepted. |
| IconvCodes.ReadsUtf32 | libs/libiconv/src/iconv.c:334-340 | Four bytes of UTF-32 are read as the first of them. |
| IconvCodes.WcharBytes | libs/libiconv/src/iconv.c:374-379 | A wide character is four bytes in the machine's order. |
| IconvCodes.WritesLatin9 | libs/libiconv/src/iconv.c:247-261 | Every character of ISO 8859-15 is written as its byte; others as their own low byte, a question mark or a counted asterisk. |
| IconvCodes.WritesAsterisk | libs/libiconv/src/iconv.c:389-402 | ASCII and ISO 8859-1 write what they have, and a counted asterisk for everything else. |
| IconvCodes.IntoLatin9 | libs/libiconv/src/iconv.c:389-402 | A text of ISO 8859-15, from any source that can spell it, is converted into the standard's bytes with nothing lost. |
| IconvCodes.OutOfLatin9 | libs/libiconv/src/iconv.c:299-310 | A string in ISO 8859-15 is converted, into any target, as the standard's characters. |
| Charsets.OneIsStable | libs/libiconv/src/iconv.c:281-371 | For every source charset, more input does not change a character or an error. |
| Charsets.OneIsLocal | libs/libiconv/src/iconv.c:281-371 | A character is recognised from its own bytes alone. |
| Charsets.Utf16IsStandardIff | libs/libiconv/src/iconv.c:403-417 | UTF-16 output is that of RFC 2781, section 2.1, if and only if the character is below U+10000. |
| Iconv.Resumes | libs/libiconv/src/iconv.c:263-439 | A call cut short by its room, followed by a call on the unread rest, does what one call would have done. |
| Iconv.NothingHalfDone | libs/libiconv/src/iconv.c:281-439 | What a call has written is the complete conversion of what it has read. |
| Iconv.RoomEnough | libs/libiconv/src/iconv.c:372-417 | With room for four bytes, a call that runs out of room has still read something. |
| Iconv.RoomForAll | libs/libiconv/src/iconv.c:372-417 | Room for four times the input is as good as unlimited room. |
| Iconv.Extends | libs/libiconv/src/iconv.c:281-371 | More input makes a conversion go on where it ran out, and changes nothing once it met an error. |
| Iconv.PiecesDoNotMatter | libs/libiconv/src/iconv.c:263-439 | Over any sequence of calls, with any pieces of input and any rooms: output, position and what is pending stand where a single call would pass by, and nothing is lost. |
| Iconv.Drains | libs/libiconv/src/iconv.c:281-439 | Calls without new input that have room for four bytes get on until room is no longer what stops them. |
| Iconv.SessionIsOneCall | libs/libiconv/src/iconv.c:263-439 | Output, position, number of asterisks written and status of a finished session are those of one call with room for everything, however the input was cut and whatever room the calls had. |
| Iconv.CountsAddUp | libs/libiconv/src/iconv.c:396-439 | The results that the calls return add up to the asterisks written if and only if no call that returned -1 had written one. |
| Iconv.SessionCount | libs/libiconv/src/iconv.c:396-439 | For a finished session, the same decides whether the caller knows what one call would have counted. |
| Iconv.CountIsLost | libs/libiconv/src/iconv.c:396-439 | Two bytes that ASCII lacks, converted with room for one at a time: the results say one, two asterisks were written. |
| IconvText.OutputIsUtf8 | libs/libiconv/src/iconv.c:281-388 | From any source without surrogates, any input and any room, the UTF-8 output is a sequence of whole well-formed characters. |
| IconvText.OutputIsUtf8Iff | libs/libiconv/src/iconv.c:281-388 | UTF-8 output is well formed for every input if and only if no entry of the source's table is a surrogate. |
| IconvText.Transcodes | libs/libiconv/src/iconv.c:281-435 | A text that the source charset can spell is converted into the target's spelling of it, all of it, with the number of asterisks as result. |
| IconvText.ThereAndBack | libs/libiconv/src/iconv.c:281-435 | A text that both charsets can spell comes back byte for byte. |
| IconvText.Utf8Utf16AndBack | libs/libiconv/src/iconv.c:281-417 | UTF-8 to UTF-16 of either byte order and back is the identity on text of the basic plane without U+FFFE and U+FFFF. |
| IconvText.LittleIsSwapped | libs/libiconv/src/iconv.c:119-130 | The little-endian UTF-16 spelling is the big-endian one with the bytes of each pair exchanged. |
| IconvText.SpellsStandardUtf16 | libs/libiconv/src/iconv.c:403-417 | The UTF-16 spelling of a text is the standard's if and only if the text is in the basic plane. |
| IconvText.Utf8TextSpells | libs/libiconv/src/iconv.c:132-160 | Every well-formed UTF-8 string is the spelling of a text, so the theorems about texts cover all such strings. |
| IconvRun.PutUtf8 | libs/libiconv/src/iconv.c:132-160 | The encoder stores the encoding at its place, returns its length and touches no other byte. |
| IconvRun.PutUnit | libs/libiconv/src/iconv.c:125-130 | Both bytes of a unit go to the places that the byte order gives them; no other byte changes. |
| IconvRun.GetUtf8 | libs/libiconv/src/iconv.c:199-245 | The decoding loop returns the character and its length, -1 for an illegal sequence, -2 for one that is cut off. |
| IconvRun.Buffers.WriteOne | libs/libiconv/src/iconv.c:372-434 | A character is written if it fits, and the output pointer advances by what the room decreases; otherwise nothing changes. |
| IconvRun.Buffers.Convert | libs/libiconv/src/iconv.c:263-439 | The loop over the caller's four variables does the limited conversion: bytes written, bytes read, room left, status, and a result that is -1 except when it is done or starved. |
| Crc32.Compute | utils/calvaria/files/src/calvaria.c:77-97 | The nested loops compute the reflected register with polynomial 0xEDB88320 over the bits of the buffer. |
| Crc32Check.PolynomialTerms | utils/calvaria/files/src/calvaria.c:77-97 | The bits of the reflected polynomial are those of x^32+x^26+x^23+x^22+x^16+x^12+x^11+x^10+x^8+x^7+x^5+x^4+x^2+x+1. |
| Crc32Known.KnownChecksum | utils/calvaria/files/src/calvaria.c:77-97 | From a register of ones, the ASCII digits 1 to 9 give 0x340BC6D9. |
| Crc32Known.ComputeKnown | utils/calvaria/files/src/calvaria.c:77-97 | The program computes that value. |
| Crc.ChecksumConcat | utils/calvaria/files/src/calvaria.c:77-97 | Running over two pieces in turn is running over their concatenation. |
| Crc.RunLinear | utils/calvaria/files/src/calvaria.c:77-97 | The register is linear over exclusive OR, in its start and its bits together. |
| Crc.RunInjective | utils/calvaria/files/src/calvaria.c:77-97 | Different registers stay different over the same bits. |
| Crc.BurstDetected | utils/calvaria/files/src/calvaria.c:77-97 | For any polynomial of full degree: two different buffers of one length that agree outside a window of as many bits as the register has get different checksums, from any start. |
| Crc32.BurstChangesChecksum | utils/calvaria/files/src/calvaria.c:77-97 | CRC-32 detects every burst of at most 32 bits, anywhere, from any starting register. |
| Crc32.StoredChecksum | utils/calvaria/files/src/calvaria.c:186-206 | Data followed by four little-endian bytes runs to zero if and only if those bytes are its checksum. |
| SectionScan.ParseGivesSections | utils/calvaria/files/src/calvaria.c:123-132 | Sections lie whole inside the image, in order and without overlap. |
| SectionScan.ParseIsUnique | utils/calvaria/files/src/calvaria.c:252-302 | The single-pass parse is the only list of sections, in order and without overlap, that accounts for every header. |
| SectionScan.ParseResumes | utils/calvaria/files/src/calvaria.c:252-302 | Parsing again behind any section gives the remaining ones. |
| SectionScan.FindSection | utils/calvaria/files/src/calvaria.c:252-302 | The search returns the first section that matches index and name; for the last index, the first section of greatest index among those with the name; not -1 if and only if there is a candidate and, for the last index, no section is cut short. |
| SectionScan.CutSectionHidesMatch | utils/calvaria/files/src/calvaria.c:270-301 | An image whose first section is whole and matches, and whose second is cut short: a candidate that the search for the last index does not report. |
| SectionImage.FieldsAreRead | utils/calvaria/files/src/calvaria.c:25-34 | A section written field by field is a header wherever it stands in an image, with its own index, its name up to the first NUL, its payload length, its end and its two sums. |
| SectionImage.WhoWantsIt | utils/calvaria/files/src/calvaria.c:281-290 | It answers a search for a negative index, its own index or 256, for any name or its own. |
| SectionImage.FindWritten | utils/calvaria/files/src/calvaria.c:252-302 | Behind anything that holds no header, the search for its index and name returns its offset. |
| SectionImage.FindLastOfTwo | utils/calvaria/files/src/calvaria.c:252-302 | Of two written sections of one name, index 256 finds the one of greater index, and the first if they are equal. |
| SectionImage.SumsAreReported | utils/calvaria/files/src/calvaria.c:185-187 | A written section is reported intact exactly where its sums are those of its first 32 bytes and of its payload. |
| DumpImage.DumpSection | utils/calvaria/files/src/calvaria.c:175-206 | The header is reported intact if and only if it runs to zero with its stored checksum, the payload if and only if it has the stored one. |
| DumpImage.Dump | utils/calvaria/files/src/calvaria.c:304-353 | Repeated searching reports exactly the selected sections, once each, in the order of the image. |
| DumpImage.VisitedAreSelected | utils/calvaria/files/src/calvaria.c:304-353 | A section is visited if and only if it matches; with the last index, if and only if it has the name and no later section with the name has a greater index. |
| DumpImage.VisitsIncrease | utils/calvaria/files/src/calvaria.c:304-353 | The visited offsets increase strictly. |
| CcittTable.AtIsShift8 | utils/calvaria/files/src/cal2p54.c:705-738 | Every entry of the table is eight turns of the register with polynomial 0x8408. |
| CrcCcitt.ByteIsEightTurns | utils/calvaria/files/src/cal2p54.c:740-743 | One table step is eight turns of the bitwise register over the byte, from any register. |
| CrcCcitt.Compute | utils/calvaria/files/src/cal2p54.c:745-750 | The table-driven loop computes the bit-at-a-time checksum of the buffer. |
| CrcCcitt.GenerateEeprom | utils/calvaria/files/src/cal2p54.c:797-850 | The output is the wrapper, the pieces and a trailer with the complemented checksum of all pieces together, low byte first. |
| CrcCcitt.Residue | utils/calvaria/files/src/cal2p54.c:804-843 | Data followed by its trailer always runs to 0xF0B8, the constant of RFC 1662, Appendix C.2. |
| CrcCcitt.BurstSpoilsResidue | utils/calvaria/files/src/cal2p54.c:797-850 | A burst of at most 16 bits in data or trailer never leaves the residue. |
| Crc.OddErrorDetected | utils/calvaria/files/src/cal2p54.c:740-750 | With a polynomial of an odd number of ones, any odd number of flipped bits changes the checksum, from any start. |
| CrcCcitt.OddErrorSpoilsResidue | utils/calvaria/files/src/cal2p54.c:797-850 | Any odd number of flipped bits, anywhere in data or trailer, spoils the residue. |
| Ttcp.Pattern | net/ttcp/ttcp.c:1549-1561 | The filler is the 95 printable characters over and over. |
| Ttcp.Send | net/ttcp/ttcp.c:1018-1109 | The sender emits two start packets, as many numbered data packets as asked for and four end packets with the count. |
| Ttcp.MakeEndPacket | net/ttcp/ttcp.c:1205-1223 | An end packet is the end pattern and the count, most significant byte first. |
| Ttcp.WireFormat | net/ttcp/ttcp.c:328-335 | The packets in bytes: 1 2 3 4 to start, the number modulo 256 and the 95-character filler for data, 2 2 2 2 and the count to end. |
| Ttcp.Recognised | net/ttcp/ttcp.c:1290-1305 | A packet is taken for a start or an end packet exactly by its first four bytes, an end packet only if there are eight. |
| Ttcp.Nread | net/ttcp/ttcp.c:1957-2012 | Reading cuts a packet to the buffer and leaves the bytes behind a shorter one. |
| Ttcp.UdpRcvTest | net/ttcp/ttcp.c:1277-1395 | The receiving loop ends in the state of the step-by-step receiver, whatever packets arrive. |
| Ttcp.DataIsData | net/ttcp/ttcp.c:1278-1395 | A packet of filler is never taken for a start or an end packet, whatever its number. |
| Ttcp.Accounting | net/ttcp/ttcp.c:1278-1395 | For every pattern of dropped packets: start and data packets counted, sequence reports made, and that the test ends if and only if an end packet arrives. |
| Ttcp.CountReadIs | net/ttcp/ttcp.c:1207-1223 | The count that is read is the count that was sent if and only if all its bytes fit the buffer or agree with what is behind it. |
| Ttcp.LossIsExact | net/ttcp/ttcp.c:1278-1395 | If some end packet arrives, expected minus counted packets is the number dropped if and only if the count is not negative and was read whole. |
| Ttcp.ReportsAre | net/ttcp/ttcp.c:1362-1372 | The receiver reports exactly as many packets as arrive behind a run of dropped ones whose length 256 does not divide. |
| Ttcp.GapIs | net/ttcp/ttcp.c:1362-1372 | That run is the longest one of dropped packets that ends there. |
| Ttcp.NoLossNoReport | net/ttcp/ttcp.c:1362-1372 | Without loss the receiver reports nothing out of sequence, however often the one-byte number wraps. |
| Ttcp.SilentGaps | net/ttcp/ttcp.c:1362-1372 | With sequence checking on, the receiver reports nothing if and only if 256 divides the length of every run of dropped packets before a delivered one. |
| Ttcp.TestPasses | net/ttcp/ttcp.c:1278-1395 | What a whole test does to a receiver that has been through other tests without an end packet: it counts on, and it stays in its loop if and only if the end packets are lost again. |
| Ttcp.SecondTestIsExact | net/ttcp/ttcp.c:1278-1395 | After a test whose end packets were all lost, the loss reported for the next test is its own if and only if no data packet of the first arrived. |
| Xdr.DecodesEncoded | net/openl2tp/src/l2tp_rpc_xdr.c:8-24 | Decoding what was encoded gives the value, up to booleans and the text of absent strings, and leaves what follows unread; for every type built of the XDR primitives. |
| Xdr.RoundTrip | net/openl2tp/src/l2tp_rpc_xdr.c:8-24 | The round trip is exact if and only if the value has nothing to normalise. |
| Xdr.EncodingIsUnambiguous | net/openl2tp/src/l2tp_rpc_xdr.c:58-79 | Two values whose encodings agree, each with some bytes behind it, are the same after a transfer, and so are the bytes behind. |
| Xdr.DecodedIsNormal | net/openl2tp/src/l2tp_rpc_xdr.c:58-79 | Whatever bytes arrive, a decoded value fits its C fields and its limits, and is normal. |
| Xdr.Relay | net/openl2tp/src/l2tp_rpc_xdr.c:58-79 | Encoding a decoded message again loses nothing that a receiver would see. |
| Xdr.EncWhole | net/openl2tp/src/l2tp_rpc_xdr.c:8-24 | Every encoding is a whole number of four-byte units, as section 3 of RFC 4506 demands. |
| XdrStreams.XdrStream.Encode | net/openl2tp/src/l2tp_rpc_xdr.c:58-79 | Encoding succeeds if and only if no limit is exceeded and the bytes fit, and then appends exactly the encoding. |
| XdrStreams.XdrStream.Decode | net/openl2tp/src/l2tp_rpc_xdr.c:58-79 | Decoding takes the value off the front of the stream, or fails if and only if there is none. |
| L2tpRoutines.MixTyped | net/openl2tp/src/l2tp_rpc_xdr.c:82-198 | The direct path and the calls transfer the same values, under the same limits, in as many bytes. |
| L2tpRoutines.MixWritesTheSame | net/openl2tp/src/l2tp_rpc_xdr.c:87-128 | Any mix of direct and called blocks writes the bytes of the calls if and only if every boolean written directly is 0 or 1. |
| L2tpRoutines.MixReadsTheSame | net/openl2tp/src/l2tp_rpc_xdr.c:129-168 | Any mix reads what the calls read, up to the truth of booleans, leaves the same rest, and fails on the same input. |
| L2tpRoutines.MessageRoundTrip | net/openl2tp/src/l2tp_rpc_xdr.c:611-1005 | Sender and receiver may each move any blocks directly: the message arrives up to the truth of booleans and absent text, exactly if it is normal, and what follows is unread. |
| L2tpTransfer.EncodeRoutine | net/openl2tp/src/l2tp_rpc_xdr.c:87-128 | A routine that asks for a pointer at each block writes one of the mixes, and succeeds if and only if limits and room allow. |
| L2tpTransfer.DecodeRoutine | net/openl2tp/src/l2tp_rpc_xdr.c:129-168 | Its decoding branch reads one of the mixes, and what it reads normalises to what the calls read. |
| XdrExact.SettledIsNormal | net/openl2tp/src/l2tp_rpc_xdr.c:8-198 | For every type, with lists and arrays of any length: a transfer leaves a value alone if and only if its booleans are 0 or 1 and its absent strings are empty, everywhere in it. |
| XdrExact.ExactIsSettled | net/openl2tp/src/l2tp_rpc_xdr.c:8-198 | Exactly these values arrive as they were sent, whatever follows them. |
| L2tpMessages.AppMsgExact | net/openl2tp/src/l2tp_rpc_xdr.c:58-79 | An application message within its limits always arrives exactly. |
| L2tpMessages.SystemConfigExact | net/openl2tp/src/l2tp_rpc_xdr.c:82-198 | A system configuration arrives exactly as sent if and only if its two booleans are 0 or 1. |
| L2tpMessages.TunnelPeerExact | net/openl2tp/src/l2tp_rpc_xdr.c:421-539 | A tunnel peer arrives exactly if and only if its four booleans are 0 or 1 and its absent strings hold no text. |
| L2tpMessages.TunnelMsgExact | net/openl2tp/src/l2tp_rpc_xdr.c:421-1005 | A tunnel message arrives exactly if and only if its ten booleans are 0 or 1, its eleven optional strings are empty where absent, and the same holds of its peer and of the boolean of its statistics. |
| L2tpFields.AppMsgHolds | net/openl2tp/src/l2tp_rpc_xdr.c:58-79 | What the seven fields of an application message can hold, in numbers. |
| L2tpFields.SystemConfigHolds | net/openl2tp/src/l2tp_rpc_xdr.c:82-198 | What the fields of a system configuration can hold. |
| L2tpFields.TunnelPeerHolds | net/openl2tp/src/l2tp_rpc_xdr.c:421-539 | What the fields of a tunnel peer can hold. |
| L2tpFields.TunnelStatsHolds | net/openl2tp/src/l2tp_rpc_xdr.c:541-609 | Nine counters of 32 bits, seven of 16, fourteen of 64, and a boolean. |
| L2tpFields.TunnelMsgHolds | net/openl2tp/src/l2tp_rpc_xdr.c:611-1005 | What the 41 fields of a tunnel message can hold. |
| L2tpFields.PeerListHolds | net/openl2tp/src/l2tp_rpc_xdr.c:323-335 | A list of peers holds two 32-bit addresses for each. |
| L2tpFields.UserListHolds | net/openl2tp/src/l2tp_rpc_xdr.c:2666-2684 | A list of users holds two strings, a boolean and two 16-bit numbers for each. |
| L2tpFields.TunnelPeerFits | net/openl2tp/src/l2tp_rpc_xdr.c:455-459 | A peer is within its limits if and only if its tiebreaker has at most eight bytes. |
| L2tpFields.TunnelMsgFits | net/openl2tp/src/l2tp_rpc_xdr.c:740-755 | A tunnel message, if and only if its tiebreaker and its peer's have at most eight bytes each. |
| L2tpFields.AppMsgFits | net/openl2tp/src/l2tp_rpc_xdr.c:63-66 | An application message, if and only if its two version strings have at most sixteen bytes each. |
| L2tpFields.SendTunnelPeer | net/openl2tp/src/l2tp_rpc_xdr.c:421-539 | A peer is encoded successfully if and only if it is within that limit and there is room for all of it. |
| L2tpFields.SendTunnelMsg | net/openl2tp/src/l2tp_rpc_xdr.c:611-1005 | The same for a tunnel message and its two limits. |
| L2tpFields.SendAppMsg | net/openl2tp/src/l2tp_rpc_xdr.c:58-79 | The same for an application message and its two limits. |
| L2tpMessages.PeerListExact | net/openl2tp/src/l2tp_rpc_xdr.c:323-335 | A list of peers of any length is within its limits and arrives exactly. |
| L2tpMessages.UserListExact | net/openl2tp/src/l2tp_rpc_xdr.c:2666-2684 | A list of users of any length is within its limits, and arrives exactly if and only if the boolean of every entry is 0 or 1. |
| L2tpMessages.PeerListSize | net/openl2tp/src/l2tp_rpc_xdr.c:323-335 | It takes twelve bytes, and twelve more for every entry after the first. |
| HostTable.FindSlot | net/wiviz/src/wiviz.c:441-455 | The probe ends at the first slot that is free or holds the address, or at the 130th. |
| HostTable.GotHost | net/wiviz/src/wiviz.c:441-472 | The call changes the table to the specified one and returns the slot of the address. |
| HostTable.TouchIsLocal | net/wiviz/src/wiviz.c:441-472 | The slot returned holds the address with its records allocated, and no other slot changes. |
| HostTable.TouchKeepsSound | net/wiviz/src/wiviz.c:441-472 | A call keeps: no address twice, every entry within 129 of its hash with all slots before it taken, every record that printing follows allocated. |
| HostTable.TableNumbers | net/wiviz/src/wiviz.c:441-455 | In a sound table of 257 slots an entry is at most 129 slots behind its hash, cyclically, and every slot in between is taken. |
| HostTable.NetworkIsMarked | net/wiviz/src/wiviz.c:378-405 | The network that a station names is in the table after the packet, as an ad hoc one if the packet is its beacon and as an access point otherwise. |
| HostTable.Found | net/wiviz/src/wiviz.c:441-455 | In a sound table an address that is present is found where it is. |
| HostTable.TouchMacs | net/wiviz/src/wiviz.c:441-472 | A call adds its address and drops at most the one it overwrites. |
| HostTable.KeepsAllIff | net/wiviz/src/wiviz.c:441-472 | A call loses no address if and only if it evicts none. |
| HostTable.NothingLostIff | net/wiviz/src/wiviz.c:441-472 | Over a run of calls, the table holds every address so far after every call if and only if no call evicts one. |
| HostTable.EvictionNeedsCrowd | net/wiviz/src/wiviz.c:449-455 | An entry is overwritten only if 130 other addresses are in the table. |
| HostTable.DealWithPacket | net/wiviz/src/wiviz.c:378-421 | Handling a packet keeps the table sound, so no missing record is followed. |
| HostTable.AlwaysSound | net/wiviz/src/wiviz.c:378-472 | After every run of packets from the empty table, the table is sound. |
| HostTable.FewHostsLoseNothing | net/wiviz/src/wiviz.c:378-472 | While no more than 130 addresses were seen, the table holds exactly those. |
| HostTable.OneMoreIsLost | net/wiviz/src/wiviz.c:441-472 | With 131 addresses there is a run that loses one. |
| PkgDetails.DoPkgMirrorPkgs | admin/debootstrap/files/pkgdetails.c:128-213 | The line loop prints what the step-by-step state machine prints. |
| PkgDetails.OneLineEach | admin/debootstrap/files/pkgdetails.c:128-213 | In unique mode every requested index gets exactly one line, a match or its own name as missing, whatever the file holds. |
| PkgStanzas.FirstRunIs | admin/debootstrap/files/pkgdetails.c:150-190 | The status kept for a name is the end of the first run of consecutive stanzas with that name. |
| PkgStanzas.FirstRunIsAnswered | admin/debootstrap/files/pkgdetails.c:128-213 | For distinct names and blank-terminated stanzas, the one line is the last stanza of the first run with the name, or the name as missing. |
| PkgText.ValueOfLine | admin/debootstrap/files/pkgdetails.c:40-47 | What is copied from a line is its value, without the label, the colon and the blanks behind it. |
| PkgText.NameIsAnswered | admin/debootstrap/files/pkgdetails.c:128-213 | In a file of stanzas that begin with "Package: " and a name, a requested name is answered by the last stanza of its first run, with that name in front. |
| PkgText.NameIsMissing | admin/debootstrap/files/pkgdetails.c:128-213 | A name that no package line gives is reported as missing. |
| PkgText.StanzaIsPrinted | admin/debootstrap/files/pkgdetails.c:172-197 | If that stanza has its five lines, the answer is name, version, architecture, mirror, file name, checksum and size, with the values of those lines. |
| PkgFields.FieldComesFrom | admin/debootstrap/files/pkgdetails.c:172-197 | A field of the answered line is the last one that its stanza mentions, or else the field as the stanza before left it. |
| PkgFields.OwnLineIff | admin/debootstrap/files/pkgdetails.c:172-197 | A stanza is answered with the same line whatever came before it if and only if its body has a line for each of the five fields. |
| PkgFields.CompleteIsOwn | admin/debootstrap/files/pkgdetails.c:172-197 | Such a stanza is answered as if it stood alone in the file. |
| WattsUp.RoundTrip | utils/wattsup/src/wattsup.c:493-637 | Behind any prefix without a number sign and with or without the final semicolon, what is accepted has the printed command, subcommand and count, and the fields come back if and only if there are some and all are clean. |
| WattsUp.NoFieldsAreRefused | utils/wattsup/src/wattsup.c:493-637 | A printed packet without fields is always refused. |
| WattsUp.BufferRoundTrip | utils/wattsup/src/wattsup.c:537-637 | The same for a packet received into memory, whole or with its last byte overwritten by the terminator. |
| WattsUp.AtoiReads | utils/wattsup/src/wattsup.c:590-600 | The count is read as a decimal number behind blanks and a sign, up to the first character that is not a digit. |
| WattsUp.AllFitIff | utils/wattsup/src/wattsup.c:500-514 | All fields fit if and only if the whole packet has at most 253 bytes. |
| WattsUp.ParseMemIs | utils/wattsup/src/wattsup.c:537-637 | Parsing by addresses in memory finds what parsing the text finds. |
| WattsUp.WuPacket.WuWrite | utils/wattsup/src/wattsup.c:493-523 | The buffer holds the printed packet, and printing is refused if and only if there are fields and the packet would have more than 253 bytes. |
| WattsUp.WuPacket.ParsePacket | utils/wattsup/src/wattsup.c:537-637 | Cutting the buffer in place gives the parse of its text, and every field pointer reads as its field. |

## Left out

- Sockets, files, serial lines, timers, option parsing and output: packets, lines, images and
  buffers are sequences, what is read or dropped is a parameter, and write errors do not occur.
- iconv: opening by name, the individual tables and the unfinished EUC, Shift-JIS, Big5 and GBK
  maps; an 8-bit table is any 128 codes. `char` in the UTF-8 helpers is taken as unsigned.
- iconv: a source pointer that is null; it returns 0 like an empty input. A 32-bit `wchar_t` is modelled,
  in either byte order.
- calvaria: printing of the section headers, memory mapping and option parsing.
- cal2p54: calibration curves and the contents of the EEPROM template; the pieces are parameters.
- Crc32.Compute: checksums of byte sequences only; reading the image from a file is not modelled.
- Ttcp.UdpRcvTest: byte tallies, timing, log files, random data and random lengths are not modelled;
  the memory behind a receive buffer shorter than eight bytes is part of the buffer in the model.
- Ttcp.Send: fixed lengths and the filler pattern, with start and end packets, as in the UDP test.
- Xdr.DecodesEncoded: the XDR library itself is not part of this model; its primitives follow RFC 4506,
  with values as the C fields hold them. Running out of memory and null strings are not modelled.
- L2tpMessages: the records not listed there repeat the same shapes; the freeing mode of the routines is
  not modelled.
- L2tpTransfer.EncodeRoutine: which blocks get a pointer is the stream's choice, so the contract names
  the mix only as one of those possible, and as the calls when no pointer is given out.
- wiviz: expiry of slots, smoothing of the signal strength, and the contents of the records behind the
  pointers; when a slot is overwritten its old records stay, and only their being allocated is modelled.
- pkgdetails: the modes that list fields, dependencies and stanzas, and lines longer than the line buffer;
  lines are given without their newline.
- WattsUp.WuPacket.ParsePacket: the source bounds neither the received length by the buffer nor the
  number of fields by 18; the method asks for a length below the buffer's, and its list of fields has no bound.
- WattsUp.WuPacket.WuWrite: the number of fields is the count of the packet, at most 18, as its callers keep it.
