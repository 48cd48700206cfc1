# uConnuxCLI core in Dafny

uConnuxCLI is a command-line shell that manages serial devices attached to
USB ports and talks to them through a small framed binary protocol. It has
a C shell and a C++ shell. This project models the parts of both that hold
the program's logic, and proves what they promise:

- **Framing codec** (`src/message_protocal.c`, `include/message_protocol.h`).
  A frame is a header byte `0xAA`, a command byte, an optional length byte
  (string frames only), the payload, and an XOR checksum over everything
  before it. Integers are little-endian `int16`. The model covers the
  three encoders, the parser that looks for a frame in a receive buffer,
  and the payload release. It is proved that:
  - encoding then parsing gives the message back, after any junk that
    holds no header byte;
  - a frame that is cut short, corrupted, or carries an unknown command
    gets exactly the code and consumed count the C code produces;
  - the parser never reports BAD_HEADER.
- **C tokenizer** `split_args` / `get_args` / `free_args`
  (`src/args_parser.c`). It handles quotes and backslashes, keeps at most 64
  tokens, and cuts each token to 255 characters. The model fills an array
  of 64 slots. It is proved that:
  - a quote opens a quoted token only as its first character, and the
    token ends at the matching quote, which is skipped;
  - a backslash is dropped and the next character kept, inside and
    outside quotes, while a trailing backslash is kept;
  - on input without quotes or backslashes it splits at whitespace, and
    agrees with the C++ tokenizer while the limits are not reached.
- **C++ tokenizer** `splitArguments` (`src/args_parser.cpp`). It is a
  three-state machine with single quotes, double quotes and escapes inside
  double quotes. The loop is proved against a recursive specification.
  Lemmas cover quoted tokens, unclosed quotes, quotes that join words, and
  the fact that no token is empty.
- **Option parser** `OptionsParser` (`src/args_opt.cpp`). It is a class
  holding the option list, which `parseOptionsString` resets and then
  updates in place. It is proved that:
  - the registry is never altered;
  - each found flag is explained by a token naming the option, and each
    value is the token right after one naming the option;
  - the arguments begin with a run of option tokens. A parse that does
    not fail returns the number of tokens in that run, and stops at the
    first token that does not start with `-`. A token that names no
    option gives -1, and an option missing its value gives -2;
  - the command name is ignored.
- **Device table** (`include/uconnux.h`, `src/uconnux.c`, and `add_device`,
  `add_handler` and `create_uconnux_handler` in `src/commands/add.c`).
  The handler is a class with a ten-slot array and a counter. Adding a
  device is proved to:
  - keep the counter equal to the number of occupied slots;
  - keep port names unique;
  - never run out of slots while the counter is below the limit;
  - change only the first free slot.

  `add_handler` is proved to pick the last `-b` value. It then reduces
  that value modulo 2^32, because `add_device` takes an `unsigned int`.
- **Command registry** (`include/command_registry.hpp`,
  `src/command_registry.cpp`). A class holds the owned command objects and
  the name map. It is proved that:
  - every map entry points at an owned object of that name;
  - the last registration of a name wins;
  - `executeCommand` dispatches on the first argument and maps a thrown
    exception to COMMAND_ERROR.

The model has one module per source unit:

| module | content |
|---|---|
| `Wrappers` | `Option` |
| `Errors` | the C `ErrorCode` values |
| `ProtocolTypes` | the protocol's enumerations and records |
| `Bytes` | bytes and `^` |
| `Codec`, `CodecLemmas` | the framing codec and its properties |
| `Text` | whitespace and words |
| `ArgsParserC`, `ArgsParserCLemmas` | the C tokenizer and its properties |
| `ArgsParserCpp` | the C++ tokenizer |
| `ArgsOpt` | the option parser |
| `ArgsOptRuns` | the parse stated as a run of option tokens |
| `UConnux` | the device table |
| `AddCommand` | `add_handler` |
| `CommandRegistry` | the command registry |

## Model

| member | source | states |
|---|---|---|
| ProtocolTypes.CodesDistinct | include/message_protocol.h:12-23 | The protocol error codes are pairwise distinct; success is 0 and every error lies in -109..-101 |
| ProtocolTypes.CommandFromByte | include/message_protocol.h:26-33 | A byte names a command exactly when it is that command's ID; other bytes name no command |
| ProtocolTypes.CommandIdRoundTrip | include/message_protocol.h:26-33 | Every command ID decodes back to its command |
| ProtocolTypes.Shape | src/message_protocal.c:152-179 | SET_STRING alone is length-prefixed; SET_INT8 carries 1 byte, SET_TWIST 12, ACK and NACK none |
| Errors.HeaderValuesDistinct | include/errors.h:7-14 | The declared error codes are 0..5, success is 0, and no two share a value |
| Bytes.Xor8Laws | src/message_protocal.c:11-17 | `^` on bytes has 0 as identity, is self-inverse, commutative and associative |
| Bytes.Xor8Changes | src/message_protocal.c:199-201 | XOR with a mask leaves a byte unchanged exactly when the mask is 0 |
| Bytes.BitXorBound | src/message_protocal.c:14 | The XOR of two n-bit values has n bits, so a byte XOR is a byte |
| Codec.CalculateChecksum | src/message_protocal.c:11-17 | The loop returns the XOR of the `length` bytes from `offset` |
| Codec.SerializeInt16 | src/message_protocal.c:20-23 | An int16 becomes two bytes |
| Codec.SerializeVector3 | src/message_protocal.c:31-35 | A vector becomes six bytes |
| Codec.DeserializeInt16 | src/message_protocal.c:26-28 | The first byte is the low byte of the value and the second its high byte, the value read as two's complement |
| Codec.DeserializeVector3 | src/message_protocal.c:38-42 | Serializing the decoded vector gives back the six bytes it was read from |
| Codec.TwistPayload | src/message_protocal.c:104-105 | The twist payload is 12 bytes |
| CodecLemmas.Int16RoundTrip | src/message_protocal.c:20-28 | Deserializing a serialized int16 gives the value back; the low byte goes first |
| CodecLemmas.Int16BytesRoundTrip | src/message_protocal.c:20-28 | Every two bytes are the serialization of what they decode to |
| CodecLemmas.Vector3RoundTrip | src/message_protocal.c:31-42 | Deserializing a serialized vector gives the vector back |
| CodecLemmas.TwistPayloadRoundTrip | src/message_protocal.c:104-105 | The two halves of a twist payload decode to the linear and angular vectors |
| CodecLemmas.XorAppend | src/message_protocal.c:11-17 | The checksum of a concatenation is the XOR of the parts' checksums |
| CodecLemmas.XorFlip | src/message_protocal.c:197-204 | Flipping bits of one byte flips the same bits of the checksum |
| CodecLemmas.SingleXor | src/message_protocal.c:11-17 | The checksum of one byte is that byte |
| CodecLemmas.FrameChecksum | src/message_protocal.c:63-64 | Every frame ends in the XOR of the bytes before it, so the whole frame XORs to 0 |
| Codec.Encode | src/message_protocal.c:52-64 | A frame is the payload plus 3 bytes, or plus 4 with a string's length byte, and opens with the header and the command ID |
| CodecLemmas.EncodeLayout | src/message_protocal.c:57-63 | In a frame, the payload follows the header, the command and, for a string, the length byte holding its size; the last byte is the XOR of all before it |
| Codec.CreateStringMessage | src/message_protocal.c:47-69 | Strings longer than 255 bytes give INVALID_PARAM and no buffer. Otherwise the result is SUCCESS and a fresh buffer holding the encoded string frame |
| CodecLemmas.StringLayout | include/message_protocol.h:60-66 | A string frame is header, SET_STRING, length byte, the string, checksum |
| Codec.CreateInt8Message | src/message_protocal.c:71-89 | SUCCESS and a fresh buffer holding the encoded int8 frame |
| CodecLemmas.Int8Layout | include/message_protocol.h:68-74 | An int8 frame is header, SET_INT8, the value's byte, checksum |
| Codec.CreateTwistMessage | src/message_protocal.c:91-113 | SUCCESS and a fresh buffer holding the encoded twist frame |
| CodecLemmas.TwistLayout | include/message_protocol.h:76-83 | A twist frame is header, SET_TWIST, linear then angular little-endian, checksum |
| CodecLemmas.EncodeLength | src/message_protocal.c:181-183 | A frame is 3 bytes plus the payload, plus 1 for a string's length byte |
| Codec.FirstHeader | src/message_protocal.c:126-133 | Finds the first header byte at or after a position, or reports that there is none |
| Codec.FindHeader | src/message_protocal.c:126-133 | The scanning loop stops at the first header byte, or at the end when there is none |
| CodecLemmas.FirstHeaderAfterPrefix | src/message_protocal.c:126-133 | After a prefix with no header byte, the first header is where the frame starts |
| Codec.Parse | src/message_protocal.c:118-220 | The parser never reports consuming more bytes than the buffer holds |
| Codec.ParseFrom | src/message_protocal.c:140-179 | From the first header, the parse never reports consuming more bytes than the buffer holds |
| Codec.ParseCommand | src/message_protocal.c:162-219 | For a known command, the parse never reports consuming more bytes than the buffer holds |
| Codec.ParseMessageFromBuffer | src/message_protocal.c:118-220 | A null output gives INVALID_PARAM. Otherwise the method returns the code and consumed count of `Parse`, and on success stores its command and a fresh copy of its payload |
| Codec.ParseAtHeader | src/message_protocal.c:140-219 | From a header position, the method reports what the specification gives for that position |
| Codec.ParseCommandFrame | src/message_protocal.c:147-219 | For a known command, the method reports the length check, the checksum check and the payload copy as the specification gives them |
| Codec.CheckAndCopy | src/message_protocal.c:193-217 | The method consumes the whole frame. A checksum mismatch gives BAD_CHECKSUM; otherwise it gives SUCCESS and the payload copied out |
| Codec.CopyOut | src/message_protocal.c:209-217 | The payload copy is a fresh array equal to the frame's payload bytes |
| Codec.FreeParsedMessagePayload | src/message_protocal.c:223-229 | A message with a payload loses it and gets length 0. A null message, or one without a payload, is untouched |
| CodecLemmas.FrameAt | src/message_protocal.c:147-219 | An encoded frame at a header position parses back to its message and is consumed whole |
| CodecLemmas.ParseEncoded | src/message_protocal.c:118-220 | Round trip: junk without a header byte, an encoded message, then anything, parses to that message and consumes junk plus frame |
| CodecLemmas.ParseEncodedAlone | src/message_protocal.c:118-220 | An encoded message on its own parses back, consuming the whole frame |
| CodecLemmas.StringRoundTrip | src/message_protocal.c:47-69 | The string encoder followed by the parser gives the string back, consuming length + 4 bytes |
| CodecLemmas.Int8MessageRoundTrip | src/message_protocal.c:71-89 | The int8 encoder followed by the parser gives the value's byte back, consuming 4 bytes |
| CodecLemmas.TwistRoundTrip | src/message_protocal.c:91-113 | The twist encoder followed by the parser and the vector decoder gives both vectors back |
| CodecLemmas.ParsedCommandIsEncoded | src/message_protocal.c:193-219 | A frame the parser accepts is exactly the encoding of the message it reports |
| CodecLemmas.ParsedIsEncoded | src/message_protocal.c:118-220 | A successful parse consumed junk without a header, followed by an encoded frame of the reported message |
| CodecLemmas.ParseTruncated | src/message_protocal.c:140-190 | A frame cut after k bytes gives INCOMPLETE. The consumed count points past the header for k = 1 or 2, and past the command byte for a string with k = 3. Otherwise it points at the frame start |
| CodecLemmas.ParseCorrupted | src/message_protocal.c:193-204 | Corrupting a payload or checksum byte gives BAD_CHECKSUM with the whole frame consumed |
| CodecLemmas.ParseUnknownCommand | src/message_protocal.c:147-149 | A header followed by an unknown command byte and one more byte gives UNKNOWN_CMD, with the header and command consumed |
| CodecLemmas.ParseNoHeader | src/message_protocal.c:135-138 | A buffer with no header byte gives INCOMPLETE with everything consumed |
| CodecLemmas.ParseOutcomes | src/message_protocal.c:118-220 | The parser returns only SUCCESS, INCOMPLETE, UNKNOWN_CMD or BAD_CHECKSUM, never BAD_HEADER |
| CodecLemmas.Int8SevenFrame | src/message_protocal.c:79-84 | The int8 frame carrying 7 is AA 02 07 AF |
| CodecLemmas.GarbagePrefixExample | src/message_protocal.c:125-133 | Two junk bytes before that frame are skipped and all six bytes are consumed |
| Text.TakeWord | src/args_parser.c:61 | Takes the longest prefix free of whitespace |
| Text.TrimLeft | src/args_parser.c:48-49 | Drops the leading whitespace and nothing else |
| Text.Words | src/args_parser.cpp:64-72 | Splits at whitespace into non-empty words free of whitespace |
| ArgsParserC.SkipSpaces | src/args_parser.c:48-49 | Skips exactly the whitespace run at the position |
| ArgsParserC.ReadToken | src/args_parser.c:61-70 | Reading a token never goes backwards, advances on a token character, and stays under 256 characters |
| ArgsParserC.Token | src/args_parser.c:53-74 | Each token consumes at least one character and has fewer than 256 characters |
| ArgsParserC.SplitFrom | src/args_parser.c:46-86 | With n tokens already stored, at most 64 - n more are produced |
| ArgsParserC.Split | src/args_parser.c:33-87 | A command line gives at most 64 tokens |
| ArgsParserC.SplitArgs | src/args_parser.c:33-87 | A null input gives an empty list with no array. Otherwise the method returns a fresh 64-slot array whose first argc entries are the tokens |
| ArgsParserC.SplitLoop | src/args_parser.c:46-86 | The loop fills the array with the tokens, at most 64 of them |
| ArgsParserC.NextToken | src/args_parser.c:47-85 | One pass of the outer loop finds no token at the end of input, or finds the next token and moves past it |
| ArgsParserC.ReadOneToken | src/args_parser.c:53-74 | The method reads the quote, the token and the closing quote as the specification gives them |
| ArgsParserC.CollectToken | src/args_parser.c:61-70 | The inner loop collects the token the specification gives |
| ArgsParserC.SkipBlank | src/args_parser.c:48-49 | The skipping loop stops where the specification does |
| ArgsParserC.FreeArgs | src/args_parser.c:14-27 | A null list, or one without an array, gives ERR_NULL_POINTER and is untouched; otherwise the list is emptied |
| ArgsParserC.GetArgs | src/args_parser.c:137-155 | A null output or null command line gives ERR_INVALID_ARGUMENT. Otherwise the result is ERR_SUCCESS with the tokens |
| ArgsParserCLemmas.Truncate | src/args_parser.c:65-69 | The first 255 characters of a token; shorter tokens are kept whole |
| ArgsParserCLemmas.Capped | src/args_parser.c:83-84 | At most 64 tokens, each truncated |
| ArgsParserCLemmas.SplitBounds | src/args_parser.c:65-84 | At most 64 tokens, each shorter than 256 characters |
| ArgsParserCLemmas.SkipSpacesTrim | src/args_parser.c:48-49 | Skipping whitespace is trimming the left of the rest |
| ArgsParserCLemmas.ReadTokenPlain | src/args_parser.c:61-70 | Without quotes or backslashes, a token is the word at the position, truncated |
| ArgsParserCLemmas.SplitFromPlain | src/args_parser.c:46-86 | Without quotes or backslashes, the rest of the input splits into its words, capped |
| ArgsParserCLemmas.SplitPlain | src/args_parser.c:33-87 | Without quotes or backslashes, `split_args` gives the whitespace-separated words, at most 64, each truncated |
| ArgsParserCLemmas.CappedWithin | src/args_parser.c:65-84 | Within both limits, capping changes nothing |
| ArgsParserCLemmas.CappedLength | src/args_parser.c:83-84 | With too many words, exactly the remaining room is filled |
| ArgsParserCLemmas.TokenizersAgree | src/args_parser.c:33-87 | On input without quotes or backslashes, within the limits, the C and C++ tokenizers agree |
| ArgsParserCLemmas.SplitDropsExcess | src/args_parser.c:83-84 | More than 64 words give exactly 64 tokens |
| ArgsParserCLemmas.ReadLiteral | src/args_parser.c:61-70 | Characters other than backslash, terminator and the token's end are copied as they are, a quote included outside quotes |
| ArgsParserCLemmas.QuotedToken | src/args_parser.c:57-73 | A token opened by a quote ends at the matching quote, which is skipped; the token is the text between, possibly empty |
| ArgsParserCLemmas.EscapedChar | src/args_parser.c:62-64 | A backslash is dropped and the next character kept, whatever it is, inside quotes and outside |
| ArgsParserCLemmas.TrailingBackslash | src/args_parser.c:62-66 | A backslash just before the end of the string is kept |
| ArgsParserCLemmas.MidQuoteExample | src/args_parser.c:57-61 | `ab"cd` is one token: a quote after the first character is ordinary |
| ArgsParserCLemmas.QuoteEndsTokenExample | src/args_parser.c:72-73 | `"ab"cd` gives `ab` and `cd` |
| ArgsParserCLemmas.EmptyQuotedExample | src/args_parser.c:72-77 | `""` gives one empty token |
| ArgsParserCLemmas.EscapedBlankExample | src/args_parser.c:62-64 | `a\ b` gives the single token `a b` |
| ArgsParserCLemmas.EscapedBlankJoins | src/args_parser.c:57-76 | Any two literal characters around an escaped blank form one token, the blank kept and the backslash dropped |
| ArgsParserCLemmas.TrailingBackslashExample | src/args_parser.c:62-66 | `a\` gives the token `a\` |
| ArgsParserCpp.SplitArguments | src/args_parser.cpp:50-126 | The state-machine loop returns the tokens of the recursive specification, none of them empty |
| ArgsParserCpp.Scan | src/args_parser.cpp:64-123 | No token still to come is empty, whatever the state and the text accumulated |
| ArgsParserCpp.Tokens | src/args_parser.cpp:50-126 | No token of a command line is empty |
| ArgsParserCpp.NoEmptyTokens | src/args_parser.cpp:67-72 | No token is empty |
| ArgsParserCpp.QuoteFreeTokens | src/args_parser.cpp:64-82 | Without quotes, the tokens are the whitespace-separated words, backslashes included |
| ArgsParserCpp.SingleQuotedToken | src/args_parser.cpp:84-90 | A single-quoted text without a quote is one token, taken literally |
| ArgsParserCpp.DoubleQuotedToken | src/args_parser.cpp:92-111 | A non-empty text, escaped for double quotes and quoted, is one token equal to the text |
| ArgsParserCpp.EscapeDouble | src/args_parser.cpp:96-106 | The escaping puts a backslash before every double quote |
| ArgsParserCpp.UnclosedSingleQuote | src/args_parser.cpp:115-123 | An unclosed single quote keeps the rest of the input as the last token |
| ArgsParserCpp.UnclosedDoubleQuote | src/args_parser.cpp:115-123 | An unclosed double quote keeps the unescaped rest of the input as the last token |
| ArgsParserCpp.QuotesJoinExample | src/args_parser.cpp:73-76 | Quotes do not end a token: a"b c"d is the single token "ab cd" |
| ArgsParserCpp.EmptyQuotesExample | src/args_parser.cpp:120-123 | Empty quotes produce no token |
| ArgsParserCpp.BackslashOutsideExample | src/args_parser.cpp:77-78 | Outside quotes a backslash is kept and escapes nothing |
| ArgsParserCpp.BackslashInDoubleExample | src/args_parser.cpp:103-106 | Inside double quotes a backslash before an ordinary character is kept |
| ArgsParserCpp.TrailingBackslashExample | src/args_parser.cpp:96-106 | A backslash at the end of input inside double quotes is kept |
| ArgsOpt.FindLetter | src/args_opt.cpp:31-38 | The first option with that letter, or none when no option has it |
| ArgsOpt.FindName | src/args_opt.cpp:40-47 | The first option with that name, or none when no option has it |
| ArgsOpt.Reset | src/args_opt.cpp:66-69 | Every option keeps its letter, name and kind, with empty argument and not found |
| ArgsOpt.Take | src/args_opt.cpp:83-89 | A matched option moves past its token, and past its value when it needs one |
| ArgsOpt.StepAt | src/args_opt.cpp:72-111 | A step that goes on moves forward and keeps the option count |
| ArgsOpt.Scan | src/args_opt.cpp:71-116 | The parsing loop keeps the number of options |
| ArgsOpt.Parse | src/args_opt.cpp:62-117 | Parsing keeps the number of options |
| ArgsOpt.OptionsParser.constructor | src/args_opt.cpp:29 | Starts with no options |
| ArgsOpt.OptionsParser.AddOption | src/args_opt.cpp:49-53 | Appends one new option with a long name, not found and without argument |
| ArgsOpt.OptionsParser.AddLetterOption | src/args_opt.cpp:55-58 | Appends one new option with an empty name |
| ArgsOpt.OptionsParser.GetOptions | src/args_opt.cpp:60 | Returns the option list |
| ArgsOpt.OptionsParser.FindOptionByLetter | src/args_opt.cpp:31-38 | The loop returns the first option with the letter |
| ArgsOpt.OptionsParser.FindOptionByName | src/args_opt.cpp:40-47 | The loop returns the first option with the name |
| ArgsOpt.OptionsParser.ResetOptions | src/args_opt.cpp:66-69 | The reset loop leaves the list the specification's reset gives |
| ArgsOpt.OptionsParser.StepMethod | src/args_opt.cpp:72-111 | One token is handled as the specification's step gives |
| ArgsOpt.OptionsParser.ParseOptionsString | src/args_opt.cpp:62-117 | The returned code and the updated options are those of the specification's parse of the old options |
| ArgsOpt.TakeKeepsRegistry | src/args_opt.cpp:83-89 | Marking an option never alters letters, names or kinds, and never clears a found flag |
| ArgsOpt.ScanKeepsRegistry | src/args_opt.cpp:71-114 | The parsing loop keeps the registry and never clears a found flag |
| ArgsOpt.ParseKeepsRegistry | src/args_opt.cpp:62-117 | Parsing keeps the number of options and each option's letter, name and kind |
| ArgsOpt.ParseExplained | src/args_opt.cpp:62-117 | Whatever the code, each found option is named by some token after the command name. Each non-empty value belongs to a found required-argument option and is the token right after a token naming that option |
| ArgsOpt.ScanCode | src/args_opt.cpp:71-116 | The loop's code is -1, -2, or lies between the count so far and that count plus the number of tokens left |
| ArgsOpt.ParseCode | src/args_opt.cpp:62-117 | The result is INVALID_OPTIONS, MISSING_ARGUMENT, or a count from 0 up to one less than the number of arguments |
| ArgsOptRuns.Lookup | src/args_opt.cpp:72-100 | A token names the first option it names as `--name` or `-c`, and none when no option is so named |
| ArgsOptRuns.StepLookup | src/args_opt.cpp:72-111 | One step leaves at a token not starting with `-`, returns INVALID_OPTIONS at a token naming no option, and otherwise takes the option it names |
| ArgsOptRuns.LookupRejects | src/args_opt.cpp:72-95 | `-`, `--`, `--x`, and single-dash tokens longer than 2 name no option |
| ArgsOptRuns.LookupSameRegistry | src/args_opt.cpp:31-47 | The lookup depends only on letters and names |
| ArgsOptRuns.Width | src/args_opt.cpp:84-107 | An option token uses two tokens exactly when its option requires a value, one otherwise |
| ArgsOptRuns.RunTail | src/args_opt.cpp:71-114 | A run goes on after its first token's width as a run of the rest |
| ArgsOptRuns.RunCons | src/args_opt.cpp:71-114 | An option token before a run extends it |
| ArgsOptRuns.LastNaming | src/args_opt.cpp:83-106 | The position of the last token of a run naming an option: it names the option, and no later token of the run does; none when no token names it |
| ArgsOptRuns.MarkedStep | src/args_opt.cpp:83-106 | Taking the first token of a run, then marking the rest, is marking the whole run |
| ArgsOptRuns.MarkedOptStep | src/args_opt.cpp:83-106 | For each option, taking the first token of a run and marking the rest gives the option state that marking the whole run does |
| ArgsOptRuns.ScanFirstToken | src/args_opt.cpp:83-113 | The first token of a run sets its option found, stores the next token when a value is required, counts one, and moves past its width |
| ArgsOptRuns.ScanAlongRun | src/args_opt.cpp:71-116 | Along a run the loop counts its tokens and marks its options, and then ends as the token where the run halts decides |
| ArgsOptRuns.ScanRunEnd | src/args_opt.cpp:72-111 | At the token where a run halts, the loop returns the count at an operand or the end, INVALID_OPTIONS at a token naming nothing, and MISSING_ARGUMENT with the option found when a value is missing |
| ArgsOptRuns.ScanRunStep | src/args_opt.cpp:83-113 | Taking the first token of a run and then scanning the rest gives what scanning the whole run gives |
| ArgsOptRuns.RunExists | src/args_opt.cpp:71-114 | From any position the arguments begin with a run of option tokens that ends where the parse halts |
| ArgsOptRuns.ParseStopsAtOperand | src/args_opt.cpp:109-116 | After a run, a token not starting with `-` or the end gives the number of tokens in the run; each option is found exactly when a run token names it, and holds the token after the last such token, even one starting with `-` |
| ArgsOptRuns.ParseRejectsUnknown | src/args_opt.cpp:72-100 | After a run, a token starting with `-` that names no option gives INVALID_OPTIONS |
| ArgsOptRuns.ParseMissingValue | src/args_opt.cpp:84-105 | After a run, a last token naming an option that requires a value gives MISSING_ARGUMENT with that option found |
| ArgsOptRuns.ParseCountsOptionTokens | src/args_opt.cpp:62-117 | Every parse has a run of option tokens where it halts; when it does not fail, its code is the number of tokens in the run, and the run ends at an operand or at the end |
| ArgsOptRuns.ValueStartingWithDash | src/args_opt.cpp:88 | `-b -x` with `b` requiring a value stores `-x` as the value and counts one option |
| ArgsOpt.ScanIgnoresPrefix | src/args_opt.cpp:71 | The loop never looks at the token before its start |
| ArgsOpt.ParseIgnoresCommandName | src/args_opt.cpp:71 | The command name in position 0 does not affect the result |
| ArgsOpt.ParseExample | src/args_opt.cpp:62-117 | `add -b 9600 --help ttyUSB0` with b/bandwidth and h/help gives 2, with b's value 9600 and both options found |
| ArgsOpt.MissingValueExample | src/args_opt.cpp:84-87 | `--bandwidth` at the end gives MISSING_ARGUMENT with the option still marked found |
| ArgsOpt.ClusterRejectedExample | src/args_opt.cpp:93-95 | A clustered `-bh` gives INVALID_OPTIONS |
| UConnux.CountOccupied | include/uconnux.h:78-83 | The number of occupied slots never exceeds the number of slots |
| UConnux.FirstFree | src/commands/add.c:203-210 | The first slot whose device has status NO_DEVICE, or none when there is no such slot |
| UConnux.AddDeviceSpec | src/commands/add.c:177-242 | `add_device` keeps every slot pointing at a device and keeps the slot count |
| UConnux.UConnuxHandler.Create | src/commands/add.c:245-259 | A fresh table of ten null slots with counter 0 |
| UConnux.UConnuxHandler.FindPort | src/commands/add.c:195-201 | The loop tells whether some slot's device holds a port of that name |
| UConnux.UConnuxHandler.FindFreeSlot | src/commands/add.c:203-210 | The loop finds the first free slot |
| UConnux.InitHandler | src/uconnux.c:16-30 | A null handler gives ERR_NULL_ARGUMENT. Otherwise every slot holds an empty NO_DEVICE device without a port, the counter is 0 and the table invariant holds |
| UConnux.DestroyHandler | src/uconnux.c:36-54 | A null handler gives ERR_NULL_ARGUMENT. Otherwise every slot becomes null |
| UConnux.AddDevice | src/commands/add.c:177-242 | A null handler gives ERR_NULL_ARGUMENT. Otherwise the code, slots and counter are those of the specification of `add_device`, and a handler whose table invariant held still satisfies it |
| UConnux.InitTableInvariant | src/uconnux.c:21-27 | A freshly initialised table satisfies the invariant with counter 0 |
| UConnux.CountFill | src/commands/add.c:238-239 | Filling a free slot raises the occupied count by one |
| UConnux.FreeSlotExists | src/commands/add.c:184-215 | While the counter is below the number of slots, a free slot exists |
| UConnux.AddPreservesInvariant | src/commands/add.c:177-242 | Adding keeps: ten slots, counter = occupied slots, unique port names, free slots without port; the counter stays at most 10 |
| UConnux.AddNeverLacksSlot | src/commands/add.c:212-215 | Under the invariant, ERR_FAILURE only comes from a failed allocation, never from a missing slot |
| UConnux.AddSucceedsIff | src/commands/add.c:180-242 | With allocation succeeding, adding succeeds exactly when the counter is below 10, the name has 1 to 49 characters, and no slot holds that port |
| UConnux.AddEffect | src/commands/add.c:203-239 | A failed add leaves slots and counter unchanged. A successful one fills the first free slot with a DISCONNECTED "NO_DEVICE" on the port at the bandwidth, changes no other slot, and adds 1 to the counter |
| UConnux.AddTwiceRefused | src/commands/add.c:184-200 | Adding the same port again gives ERR_LIMIT when the table just became full, ERR_ALREADY_EXIST otherwise |
| UConnux.AddKeepsPorts | src/commands/add.c:177-242 | Adding never drops a port already held |
| AddCommand.Strtol | src/commands/add.c:52 | `strtol` base 10 clamps to the range of `long` |
| AddCommand.DecimalValue | src/commands/add.c:52 | The decimal digits of n are worth n |
| AddCommand.StrtolDecimal | src/commands/add.c:52-65 | A decimal numeral within `long` converts to its value without error, whatever non-digit follows |
| AddCommand.StrtolNoDigits | src/commands/add.c:52 | Without a digit after the blanks and the sign, `strtol` gives 0 without error |
| AddCommand.StopCode | src/commands/add.c:41-73 | The code of an option the loop stops at: ERR_SUCCESS exactly for `-h`, ERR_INVALID_ARGUMENT exactly for a `-b` with a refused value |
| AddCommand.ScanOptions | src/commands/add.c:39-74 | When the loop runs to its end, the bandwidth is the starting one or a positive value that fits in a `long`. When it returns early, the code is ERR_SUCCESS, ERR_MISSING_ARG, ERR_INVALID_ARGUMENT, ERR_INVALID_OPTION or ERR_FAILURE |
| AddCommand.HandlerCode | src/commands/add.c:39-81 | `add_handler` returns ERR_SUCCESS, ERR_MISSING_ARG, ERR_INVALID_ARGUMENT, ERR_INVALID_OPTION or ERR_FAILURE, and no other code |
| AddCommand.ScanStopsHere | src/commands/add.c:41-73 | The loop returns at an option that is not an accepted `-b`, with that option's code |
| AddCommand.ScanPast | src/commands/add.c:51-66 | The loop goes past an accepted `-b` |
| AddCommand.ScanStopsAt | src/commands/add.c:39-74 | The loop returns the code of the first option that is not an accepted `-b` |
| AddCommand.HandlerCodeAt | src/commands/add.c:39-74 | `add_handler` returns the code of the first option that is not an accepted `-b`, whatever the port names |
| AddCommand.BandRejected | src/commands/add.c:51-65 | A `-b` value that is not a number, out of range, or not positive, after accepted `-b` options, gives ERR_INVALID_ARGUMENT |
| AddCommand.BandRejectedExamples | src/commands/add.c:51-65 | `-b fast` and `-b 0` give ERR_INVALID_ARGUMENT |
| AddCommand.ScanChoosesLast | src/commands/add.c:39-74 | The option loop runs to its end exactly when every option is a `-b` with an accepted value, and the bandwidth is then the last `-b` value or 115200 |
| AddCommand.AllPassTail | src/commands/add.c:39-74 | When the first option passes, all options pass exactly when all the later ones do |
| AddCommand.ChosenBandwidthRange | src/commands/add.c:59-65 | A bandwidth that gets through the checks is positive and fits in a `long` |
| AddCommand.LastBandIsAnOption | src/commands/add.c:44-66 | The chosen value is the value of one of the given `-b` options |
| AddCommand.SingleBand | src/commands/add.c:52-66 | With a single accepted `-b`, the device gets its value modulo 2^32 |
| AddCommand.BandwidthWraps | src/commands/add.c:14-15 | A decimal bandwidth n reaches `add_device` as n mod 2^32 |
| AddCommand.WrapToZeroExample | src/commands/add.c:14-15 | `-b 4294967296` is accepted and stores bandwidth 0 |
| AddCommand.AddAll | src/commands/add.c:121-166 | One code per port; every slot keeps a device and the slot count is kept |
| AddCommand.AddHandler | src/commands/add.c:31-174 | The return code is the option loop's code, or ERR_MISSING_ARG with no port names, or ERR_SUCCESS. When the port loop runs on a handler, the table and the per-port statuses are those of adding each port in order. On a null handler every port gets ERR_NULL_ARGUMENT. When the port loop is not reached there are no statuses and the table is unchanged. A table invariant that held still holds |
| AddCommand.AddPorts | src/commands/add.c:121-166 | The loop adds the ports in order and collects each code, so the table and statuses are those of adding the list. A null handler gives ERR_NULL_ARGUMENT for every port. The table invariant is kept when it held |
| AddCommand.AddAllInvariant | src/commands/add.c:121-166 | Adding a list keeps the table invariant. The counter grows by the number of successes. Each code is SUCCESS, ALREADY_EXIST, LIMIT or INVALID_ARGUMENT. Every added or already present port is held, and held ports stay held |
| AddCommand.AddAllKeepsTable | src/commands/add.c:121-166 | Adding a list of ports keeps the table invariant |
| CommandRegistry.Find | src/command_registry.cpp:25-31 | A name is found exactly when it is in the map, and it finds an object registered under that name |
| CommandRegistry.Register | include/command_registry.hpp:66-71 | The object is appended after the others and its name points at it. Every other name keeps its entry, and no other name is added |
| CommandRegistry.Execute | src/command_registry.cpp:33-59 | No arguments give COMMAND_SUCCESS, and an unknown first argument gives COMMAND_NOT_FOUND. Otherwise the result is the code of an object registered under that name, run on the whole vector |
| CommandRegistry.CommandRegistry.constructor | src/command_registry.cpp:16 | The registry starts with no objects and an empty map |
| CommandRegistry.CommandRegistry.RegisterCommand | include/command_registry.hpp:47-72 | The object is appended and its name points at it; every entry still points at an owned object of its name |
| CommandRegistry.CommandRegistry.FindCommand | src/command_registry.cpp:25-31 | The lookup the specification gives |
| CommandRegistry.CommandRegistry.ExecuteCommand | src/command_registry.cpp:33-59 | The dispatch the specification gives |
| CommandRegistry.CommandRegistry.GetCommands | src/command_registry.cpp:61-63 | Returns the name map |
| CommandRegistry.RegisterKeepsIndex | include/command_registry.hpp:66-71 | Registration keeps every map entry pointing at an owned object of that name |
| CommandRegistry.RegisterThenFind | include/command_registry.hpp:66-71 | After registering, the name finds the new last object. Other names find what they found before, and no object is dropped |
| CommandRegistry.LastRegistrationWins | include/command_registry.hpp:56-71 | A second registration under a name takes over the name, while the first object stays owned |
| CommandRegistry.ExecuteCases | src/command_registry.cpp:33-59 | No arguments give COMMAND_SUCCESS. An unknown first argument gives COMMAND_NOT_FOUND. Otherwise the result is the named command's code on the whole vector, or COMMAND_ERROR if it throws |
| CommandRegistry.RegisterThenExecute | src/command_registry.cpp:39-45 | Once a command is registered, running its name dispatches to it with the full argument vector |

## Left out

- Codec.ParseFrom, Codec.ParseCommand, ArgsParserC.SplitFrom, ArgsParserC.Split, ArgsParserCpp.Scan, ArgsParserCpp.Tokens, ArgsOpt.Scan, ArgsOpt.Parse, AddCommand.ScanOptions, AddCommand.HandlerCode: each one's own contract states only a bound, a count it keeps or the set of codes it can return. What each computes is stated by the lemmas about it in the table above, for example ParseTruncated, ParseCorrupted and FrameAt for the parser, SplitPlain and QuotedToken for `split_args`, QuoteFreeTokens for the C++ tokenizer, ParseCountsOptionTokens for the option parser, and ScanChoosesLast and HandlerCodeAt for `add_handler`.
- Serial I/O (`uart.c`), glob expansion (`expand_wildcards`, `expandWildcards`), the boxed output of `add_handler`, the REPL loops of both shells, the loggers, and the error-to-text tables (`get_message_error_string`, `get_status_str`) are not part of this model.
- Memory management is not modelled. A `malloc` or `strdup` that fails, `free`, and leaks are left out. The one exception is the allocation check in `add_device`, which is a parameter `allocOk`.
- Codec.CreateStringMessage, Codec.CreateInt8Message, Codec.CreateTwistMessage: the null checks on the output pointers and on the twist pointer are not modelled, because a Dafny result cannot be null. A null string is not modelled either, for the same reason. MSG_ERROR_MALLOC is left out with the other allocation failures.
- Codec.ParseMessageFromBuffer: a null receive buffer or consumed pointer is not modelled. With a null message, C leaves `*bytes_consumed` as the caller had it; the model reports 0.
- Codec.ParseMessageFromBuffer: the header comment says the parser may return BAD_HEADER, but the code never does. The model follows the code, and CodecLemmas.ParseOutcomes proves it.
- ParseTruncated reflects where the code and its comments disagree. The comment says a frame still waiting for bytes is not consumed. The code follows it only once the command is known: with one or two bytes it consumes the header, and for a string with three bytes it consumes the header and command bytes. The model follows the code.
- AddCommand.AddHandler: `getopt_long` is not modelled. Its results (one item per option, and the arguments from `optind` on) are inputs. The `optarg == NULL` branch is kept as written, although `getopt_long` never takes it for a required argument.
- AddCommand.Strtol: EINVAL is not modelled, since glibc does not set it for base 10. An input without digits converts to 0, which the `bandwidth <= 0` check refuses, as in C.
- UConnux.AddDevice requires every slot to hold a device. `create_uconnux_handler` leaves the slots null, and `add_device` would then dereference a null slot. Only tables that `uconnux_handler_init` has filled are covered.
- UConnux.AddDevice: the `uint8_t` counter is an unbounded natural. AddPreservesInvariant proves it never exceeds 10, so it cannot wrap.
- UConnux.DestroyHandler: the final `free(handler)` is not modelled; the handler stays allocated with null slots.
- UConnux.UConnuxHandler.Create: a failed allocation of the handler, which returns NULL, is not modelled.
- CommandRegistry: a command's `execute` is a function from the argument vector to a code or an exception. Side effects of commands are not modelled, and neither are the warnings logged on re-registration.
- `include/commands.h` declares `add_handler` with two parameters, while `src/commands/add.c` defines it with three. The model follows the definition.
- ArgsParserC.GetArgs: the two output pointers are one nullable `ArgList`.
- ArgsParserC.SplitArgs: the 64-slot array keeps unused slots as empty strings rather than uninitialised pointers.
- ArgsParserC.ReadToken, ArgsParserCLemmas.Truncate: a character is one byte of a C string without embedded terminators, so the 255 cap counts characters. Multi-byte encodings and a terminator inside the Dafny string (which ends the C string there) are outside the model.
- ArgsOpt.StepAt, ArgsOptRuns.Lookup, ArgsOptRuns.LookupRejects: the length tests on a token (`--` followed by at least two more, `-` followed by exactly one) count characters where `std::string::length()` counts bytes. A character stands for one byte, so option letters, option names and argument tokens are taken to be ASCII; a multi-byte name such as `--é` is outside the model.
- UConnux.AddDeviceSpec: the 1 to 49 length check on the port name counts characters, standing for the bytes `strlen` counts. Port names are taken to be C strings of one-byte characters without an embedded terminator.
- ArgsParserCpp.SplitArguments: the warning printed to `std::cerr` on an unclosed quote is output only and is not modelled; the tokens it returns are.
