# rtspCommon.c: RTSP header and SDP field extraction

This project models `src/rtspCommon.c` of a small RTSP client and proves
properties of the model. The file holds the client's text scanners:

- the OPTIONS capability matcher `RTSPOptionIsSupported`, which checks whether
  a command name is listed in a Public header;
- the header-field extractors `ParseUdpPort`, `ParseTimeout`, `ParseSessionID`
  and `ParseInterleaved`. Each finds an anchor string in a response, then a
  start delimiter, then an end delimiter, and converts the text between them
  through an 8-byte scratch array and `atol`;
- `RtspResponseStatus` (the Status-Line code) and `GetSDPLength` (the
  Content-Length value);
- the SDP scanners `GetSdpVideoAcontrol`, `GetSdpVideoTransport` and
  `ParseSdpProto`, which read the control URL and the transport profile of the
  video media description;
- `RtspIncreaseCseq`.

Layout:

- `search.dfy` (`Search`): `strstr`/`memmem`, `strchr`, and the
  "';', else CRLF" end search, as specified functions on the text of the
  buffer.
- `decimal.dfy` (`Decimal`): decimal text, `atol` (white space, sign, digits)
  and the scratch array.
- `markers.dfy` (`Markers`): the anchor strings. Their values live in
  `rtspCommon.h`, which is not part of this model, so all of them except
  `Content-Length: ` are left unspecified. Every property holds for any
  non-empty values. The round-trip lemmas let an anchor include its
  delimiter (`interleaved=`, `Session: `), as the C searches allow.
- `capability.dfy` (`Capability`): the option matcher, as a method with the
  loop of the C code.
- `fields.dfy` (`Fields`): what each header extractor reads, as functions,
  with round-trip lemmas for well-formed headers.
- `sdp.dfy` (`Sdp`): what the SDP scanners read.
- `session.dfy` (`RtspCommon`): the session structure as a class whose
  methods update it in place. Each method is proved to leave the fields as the
  functions of `Fields` and `Sdp` say, including the partial writes the C code
  makes before it fails.

A buffer is modelled as the characters before its NUL terminator. `None`
stands for a NULL pointer or for "not found".

The behaviour described for this component differs from the code in a few
places. The model follows the code:

- `ParseSessionID` fails when no `;` follows the Session header's space
  anywhere in the buffer, even when the identifier is ended by CRLF. The
  identifier then runs to the earlier of the `;` and the CRLF.
- For `a=control:*`, `GetSdpVideoAcontrol` returns without writing anything.
  It does not record a wildcard marker.
- `GetSdpVideoTransport` only ever selects UDP. Its TCP search starts from
  the NULL pointer that the failed UDP search returned.
- `ParseInterleaved` stores the second channel in `transport.udp.cport_to`,
  not in `transport.tcp.end`. The model keeps the two fields apart; under a
  union layout they would share storage (see "## Left out").
- Every SDP search passes `strlen(marker) - 1` as the needle length, so it looks for the marker without its last character: a `m=video` marker also matches `m=videx`. The line end of a control value is found by its `\r` alone.
- The end of a timeout or server_port value is the first `;` after the `=`
  or `-`, even on a later line. The CRLF is looked for only when no `;` is left
  in the buffer (`Fields.TimeoutSpanAcrossLines`).

## Model

| member | source | states |
|---|---|---|
| Capability.SeparatorsAre | src/rtspCommon.c:10 | `isSeparator` is false for NUL and for every character of a method name (letters, digits, `_` and `-`) |
| Capability.MethodNamesHaveNoSeparator | src/rtspCommon.c:10-39 | every request method of RFC 2326 is non-empty and separator-free, so OptionIsSupported answers exactly whether it is listed |
| Capability.TokenEnd | src/rtspCommon.c:34 | the name scanned from `i` ends at the first separator at or after `i`, or at the end of the text, and holds no separator |
| Capability.TokensFrom | src/rtspCommon.c:19-20 | the command names of a list are non-empty runs with no separator in them |
| Capability.SkipSeparators | src/rtspCommon.c:23 | stops at the first non-separator or at the end; everything skipped is a separator; the names listed from the new position are the same |
| Capability.SkipToken | src/rtspCommon.c:34 | stops at the next separator or at the end; everything skipped is a non-separator |
| Capability.OptionIsSupported | src/rtspCommon.c:12-39 | NULL arguments or an empty name give false. True only when the name occurs at the start of a listed name and is followed by a separator or the end. For a name without separators, true exactly when it is one of the listed names |
| Capability.TokensOfJoinNames | src/rtspCommon.c:19-20 | a list of non-empty, separator-free names joined by ", " splits back into exactly those names |
| Capability.PublicHeaderExample | src/rtspCommon.c:27-30 | in "SETUP, PLAY", "SETUP" is listed; "SETUPX" (longer) and "ETUP" (not at a name start) are not |
| Search.Find | src/rtspCommon.c:46 | the result is an occurrence at or after the start, with none before it; no result means no occurrence from the start on |
| Search.FindChar | src/rtspCommon.c:51 | the result holds the character, with none before it; no result means the character does not occur from the start on |
| Search.FindTerminator | src/rtspCommon.c:96-102 | a value ends at the first `;`. Only when no `;` is left does a CRLF end it, and then it is the first CRLF |
| Search.Trimmed | src/rtspCommon.c:259-260 | the needle searched for is the marker minus its last character |
| Decimal.Atol | src/rtspCommon.c:63 | the value of a text of length n lies strictly between -10^n and 10^n |
| Decimal.DecimalRoundTrip | src/rtspCommon.c:63 | reading the decimal text of n gives n |
| Decimal.AtolOfDecimal | src/rtspCommon.c:63 | `atol` reads a number back from its text when no digit follows |
| Decimal.AtolSkipsBlanks | src/rtspCommon.c:140 | `atol` ignores white space in front of a number |
| Decimal.AtolOfNegative | src/rtspCommon.c:346 | a `-` in front of a number's text negates it |
| Decimal.ScratchValue | src/rtspCommon.c:61-63 | a span converts exactly when it has at most 7 characters, so the 8-byte scratch array stays terminated. Its value is then below 10^7 in magnitude |
| Decimal.ScratchValueFits | src/rtspCommon.c:61-63 | every converted value fits a 32-bit signed integer |
| Decimal.ScratchValueOfDecimal | src/rtspCommon.c:61-63 | the text of a number with at most 7 digits converts back to that number |
| Decimal.ScratchValueOfNegative | src/rtspCommon.c:344-346 | a `-` and the text of a number with at most 6 digits convert to the negated number |
| Decimal.ScratchValues | src/rtspCommon.c:43-115 | the spans are converted in order and conversion stops at the first span that does not fit. Each value is its span's value |
| Decimal.ScratchValuesOfFitting | src/rtspCommon.c:43-115 | when every span fits, every span is converted |
| Decimal.ScratchValuesAfterPair | src/rtspCommon.c:43-115 | the server range is converted only when both client numbers converted |
| Fields.RangeSpans | src/rtspCommon.c:46-73 | at most two spans are read. The first holds no `-` and the second no `;` |
| Fields.UdpPortSpans | src/rtspCommon.c:43-115 | at most four spans are read. The server range is read only after both client spans were read |
| Fields.RangeSpansOfRange | src/rtspCommon.c:46-73 | a `key=from-to` parameter with digit bounds, whose `key=` starts with the anchor at its first occurrence, yields exactly `[from, to]` |
| Fields.RangeSpansOfAnchorWithDelimiter | src/rtspCommon.c:189-216 | with the anchor `interleaved=`, whose `=` the delimiter search finds, `interleaved=0-1` followed by CRLF reads back as `["0", "1"]` |
| Fields.UdpPortSpansOfTransport | src/rtspCommon.c:43-105 | `client_port=a-b;` and `server_port=c-d` (ended by `;` or CRLF) yield the four digit runs in order |
| Fields.UdpPortsOfTransport | src/rtspCommon.c:43-115 | the same header written in decimal yields the four port numbers in the order cport_from, cport_to, sport_from, sport_to |
| Fields.UdpPortSpansWithoutClientPort | src/rtspCommon.c:46-50 | without the client_port anchor no port is read |
| Fields.RangeSpansWithoutAnchor | src/rtspCommon.c:189-193 | without its anchor a range yields no span, so nothing is stored |
| Fields.InterleavedSpans | src/rtspCommon.c:187-219 | at most two channel spans are read |
| Fields.InterleavedOfTransport | src/rtspCommon.c:187-228 | `interleaved=a-b` written in decimal yields `[a, b]` |
| Fields.TimeoutSpan | src/rtspCommon.c:117-139 | the timeout text holds no `;` |
| Fields.TimeoutValue | src/rtspCommon.c:117-145 | a stored timeout is below 10^7 in magnitude |
| Fields.TimeoutSpanOfParameter | src/rtspCommon.c:117-139 | `key=value` ended by `;` or by a CRLF with no later `;` yields `value` |
| Fields.TimeoutValueOfParameter | src/rtspCommon.c:117-145 | a timeout written in decimal is read back |
| Fields.TimeoutSpanAcrossLines | src/rtspCommon.c:129-135 | the value runs to the next `;` even across line ends |
| Fields.TimeoutLostAcrossLines | src/rtspCommon.c:129-140 | a timeout at the end of its line, with a `;` more than 7 characters later, gives a span that overflows the scratch array in C; the model fails |
| Fields.TimeoutWithoutAnchor | src/rtspCommon.c:119-123 | without the anchor ParseTimeout fails |
| Fields.SessionIdSpan | src/rtspCommon.c:147-184 | the identifier holds no `;` and no CRLF, and a `;` occurs in the buffer |
| Fields.SessionIdBeforeParameter | src/rtspCommon.c:167-175 | `key id;...`, with a CRLF somewhere after the key, yields `id` |
| Fields.SessionIdAtLineEnd | src/rtspCommon.c:161-178 | `key id` ended by CRLF, with a `;` somewhere after the key, yields `id` |
| Fields.SessionIdWithoutAnchor | src/rtspCommon.c:150-154 | without the anchor ParseSessionID fails |
| Fields.ResponseStatus | src/rtspCommon.c:237-255 | -1 when the response does not start with the protocol preamble or has no space after it. Otherwise the code is below 10^7 in magnitude |
| Fields.ResponseStatusOfStatusLine | src/rtspCommon.c:237-255 | a Status-Line with a decimal code of at most 7 digits yields that code |
| Fields.SdpLengthSpan | src/rtspCommon.c:326-345 | the length text holds no CRLF |
| Fields.ContentLengthSpace | src/rtspCommon.c:334-336 | the space searched for is always the anchor's own last character, so that search never fails |
| Fields.SdpLength | src/rtspCommon.c:326-347 | the result fits a uint32_t. It is below 10^7, or it is a negative value that wrapped around |
| Fields.SdpLengthOfHeader | src/rtspCommon.c:326-347 | `Content-Length: n` followed by CRLF yields n |
| Fields.SdpLengthOfNegativeHeader | src/rtspCommon.c:346 | `Content-Length: -n` with n > 0 yields 2^32 - n, the uint32_t wrap of -n |
| Fields.SdpLengthWithoutHeader | src/rtspCommon.c:328-332 | without the header the length is 0 |
| Sdp.VideoControl | src/rtspCommon.c:257-291 | a stored control value holds no CR and does not start with `*` |
| Sdp.VideoControlOfAttribute | src/rtspCommon.c:257-291 | with the video marker minus its last character (the `strlen-1` needle) first found at `v`, and the control marker minus its last character next found at `c`, a control value ended by CR after the whole control marker is read exactly, whatever comes before `v` |
| Sdp.VideoControlOfWildcard | src/rtspCommon.c:280-283 | `a=control:*` stores nothing |
| Sdp.VideoUsesUdp | src/rtspCommon.c:293-305 | UDP is chosen only when the profile marker minus its last character (the `strlen-1` needle) occurs |
| Sdp.VideoUsesUdpIff | src/rtspCommon.c:293-305 | with the video marker minus its last character first found at `v`, UDP is chosen exactly when the profile marker minus its last character (the `strlen-1` needles) occurs at or after `v` |
| Sdp.VideoWithoutMarker | src/rtspCommon.c:259-264 | when the video marker minus its last character (the `strlen-1` needle) occurs nowhere, neither the control value nor the transport is taken |
| RtspCommon.ReadRange | src/rtspCommon.c:46-73 | the numbers read are the converted spans of the range |
| RtspCommon.RtspSession.ParseUdpPort | src/rtspCommon.c:43-115 | succeeds exactly when all four ports convert. Each port field holds its number when it was reached and is unchanged otherwise. No other field changes |
| RtspCommon.RtspSession.ParseTimeout | src/rtspCommon.c:117-145 | succeeds exactly when the timeout can be read, and then stores it. Otherwise nothing changes |
| RtspCommon.RtspSession.ParseSessionID | src/rtspCommon.c:147-184 | succeeds exactly when the identifier can be read, and then stores it. Otherwise nothing changes |
| RtspCommon.RtspSession.ParseInterleaved | src/rtspCommon.c:187-228 | succeeds exactly when both channels convert. The first goes to tcp.start and the second to udp.cportTo |
| RtspCommon.RtspSession.IncreaseCseq | src/rtspCommon.c:231-235 | the sequence number goes up by one and nothing else changes |
| RtspCommon.RtspSession.GetSdpVideoAcontrol | src/rtspCommon.c:257-291 | the control field becomes the video control value when there is one and is unchanged otherwise |
| RtspCommon.RtspSession.GetSdpVideoTransport | src/rtspCommon.c:293-314 | the transport becomes UDP when the video description names it and is unchanged otherwise |
| RtspCommon.RtspSession.ParseSdpProto | src/rtspCommon.c:316-324 | both of the above, and the result is always success |

## Left out

- Diagnostics: the `printf`/`fprintf` messages and the `RTSP_DEBUG` output are not modelled.
- Sizes: the `size` and `num` parameters are not modelled. Every search runs to the end of the text.
- `memmem` bounds: each SDP search passes the whole buffer size from a later start, so it can read past the end of the buffer. The model searches the text only.
- Decimal.ScratchValue: a span of 8 characters fills `char tmp[8]` and leaves it unterminated, and a longer one overflows it (undefined behaviour in C either way, as `atol` then reads past the array). The model reports that extractor as failed and writes nothing more.
- Destination capacities: the sizes of `sessid` and `vmedia.control` are in `rtspCommon.h`, which is not part of this model. The copies are modelled as unbounded strings.
- Sdp.VideoControl: when the CR comes before the end of the control marker, the copy length `endptr - ptr` is negative (undefined behaviour in C). The model stores nothing then.
- RtspCommon.RtspSession.GetSdpVideoTransport: the TCP branch passes the NULL result of the failed UDP search to `memmem` (undefined behaviour in C). The model leaves the transport unchanged there, so the TCP profile marker is never used.
- RtspCommon.RtspSession.IncreaseCseq: the counter is an unbounded integer. The width of `cseq` is declared in `rtspCommon.h`, so wrap-around is not modelled.
- Capability.OptionIsSupported: the "exactly when listed" direction is stated only for names without separators. For a name such as "AB,A", the scan can skip past an occurrence, so only soundness holds.
- Markers: the anchor strings of `rtspCommon.h` are unspecified constants.
- Embedded NUL characters in a buffer are not modelled, since a buffer is the text before its terminator.
- The session structure's other fields, and its creation, belong to callers outside `rtspCommon.c`. Only the fields written here are modelled.
- RtspCommon.RtspSession: `transport.udp` and `transport.tcp` are modelled as separate fields. Their declaration is in `rtspCommon.h`, which is not part of this model. If `transport` is a C union, `tcp.start` shares storage with `udp.cport_from` and `tcp.end` with `udp.cport_to`. Then ParseInterleaved's second channel does land in `tcp.end`, as its debug print at lines 223-225 expects. The frame clause `tcp == old(tcp)` of ParseUdpPort would then not hold either, and ParseInterleaved's first channel would also overwrite `udp.cport_from`.
