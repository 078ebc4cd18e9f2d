# Pdf2text in Dafny

A model of the PHP class `Pdf2text` (`src/Pdf2text/Pdf2text.php`). The class extracts text from
the bytes of a PDF file. The work is a chain of string transforms:

- `decodePDF` finds the `obj ... endobj` spans of the file. For each one with a
  `stream ... endstream`, it reads the object's dictionary (`getObjectOptions`). It skips fonts
  and images. It runs the stream through the filters the dictionary names (`getDecodedStream`,
  with `decodeAsciiHex`, `decodeAscii85` and `decodeFlate`).
- A decoded stream that holds `BT ... ET` text objects adds the operands of their text-showing
  operators to a list of texts (`getDirtyTexts`). Any other non-empty stream adds its `bfchar` and
  `bfrange` character maps to a table of code transformations (`getCharTransformations`).
- `getTextUsingTransformations` then renders every text. It reads `<...>` hex strings chunk by
  chunk through the table and an HTML entity decoder. It copies `(...)` literal strings with their
  backslash escapes. Each text ends with a newline.

Each PHP function is one Dafny module:

- `AsciiHex` and `Ascii85` are the two codecs.
- `Options` is the dictionary, a PHP ordered array.
- `StreamDecoder` is the filter chain.
- `Scanner` holds the regular expressions, written as scanners.
- `TextOperators` is `getDirtyTexts`.
- `CMap` is `getCharTransformations`.
- `Renderer` is `getTextUsingTransformations`.
- `Pdf2text` holds the class itself and the object loop of `decodePDF`.
- `Php` holds the PHP built-ins the class calls: `chr`, `trim`, `explode`, `hexdec`, `str_pad`,
  `str_split`, `substr` and `sprintf("%04X")`.

The loops of the source are methods, each proved equal to a function of its inputs. The lemmas
state what those functions do. The model follows PHP 8.2.

The model follows the code where it departs from the PDF standard (ISO 32000-1, sections 7.4.2,
7.4.3 and 9.10.3):

- `'\r'`, `'\n'`, `'\t'`, `'\0'` and `'\f'` are written in single quotes. In PHP they are
  two-character strings, so both codecs skip only `' '`.
- An ASCIIHex `%` is skipped, but what follows it is still decoded.
- An ASCII85 `%` ignores everything up to `~`.
- The ASCIIHex pad byte is written after an even number of digits.
- An ASCII85 tail byte equal to the character `'0'` raises an exception that nothing catches.
- `str_pad` pads on the right.
- A dictionary value is only its second word.
- `Length` is unset before the filters run, so the stream is never cut.
- `)` and `>` flush their buffers whatever the mode.
- An unrecognised escape such as `\'` drops both characters.
- `setOptions` can only set the hex chunk width to 4. Its `? 4 : 2` only runs for a non-empty
  value, which is always truthy.

## Model

| member | source | states |
|---|---|---|
| Php.Chr | src/Pdf2text/Pdf2text.php:211 | chr(x) is a byte, the value x mod 256 (so chr(-16) is 0xF0) |
| Php.CharAt | src/Pdf2text/Pdf2text.php:523 | reading a string at an index past its end gives "", inside it the one character |
| Php.StrPadRight | src/Pdf2text/Pdf2text.php:440 | str_pad keeps a long string and pads a short one on the right with the pad character up to the width |
| Php.StrSplit | src/Pdf2text/Pdf2text.php:502 | str_split gives chunks of 1..w characters, all but the last exactly w, whose concatenation is the string |
| Php.JoinExplode | src/Pdf2text/Pdf2text.php:334 | explode loses nothing: joining its pieces with the delimiter gives the string back |
| Php.Explode | src/Pdf2text/Pdf2text.php:334 | explode gives at least one piece, at least two when the delimiter occurs, and no piece holds the delimiter |
| Php.LTrim | src/Pdf2text/Pdf2text.php:140 | ltrim drops exactly the leading run of trim characters |
| Php.CollapseWs | src/Pdf2text/Pdf2text.php:339 | after collapsing white space no two spaces are adjacent and no other white space is left |
| Php.CollapseWsKeepsText | src/Pdf2text/Pdf2text.php:339 | collapsing keeps every non-white-space character in order and leaves exactly one space per run of white space |
| Php.HexDecHex4 | src/Pdf2text/Pdf2text.php:450-456 | hexdec of sprintf("%04X", n) is n |
| Php.Hex4 | src/Pdf2text/Pdf2text.php:454-455 | sprintf("%04X", n) is upper-case hex, four characters for n below 0x10000 |
| AsciiHex.DecodeAsciiHex | src/Pdf2text/Pdf2text.php:174-228 | the decoder's loop returns exactly the declarative reading Decoded of its input |
| AsciiHex.ScanDigits | src/Pdf2text/Pdf2text.php:181-217 | after any prefix the loop has given up exactly when a character other than ' ' and '%' is not a hex digit, and otherwise holds the parity of the digit count, the last high nibble and one byte per complete pair |
| AsciiHex.PairsAt | src/Pdf2text/Pdf2text.php:208-212 | the k-th output byte is made of digits 2k (high nibble) and 2k+1 |
| AsciiHex.PairsStepOdd | src/Pdf2text/Pdf2text.php:208-214 | a digit after an odd count completes a pair and appends its byte |
| AsciiHex.PairsStepEven | src/Pdf2text/Pdf2text.php:208-214 | a digit after an even count appends nothing and becomes the high nibble |
| AsciiHex.HexDecOne | src/Pdf2text/Pdf2text.php:202-206 | hexdec of one character is 0 while the character is not '0' exactly when it is not a hex digit |
| AsciiHex.GiveUpRejects | src/Pdf2text/Pdf2text.php:204-206 | a non-hex character other than ' ' and '%' before any '>' makes the whole result '' |
| AsciiHex.ScanNoneSticks | src/Pdf2text/Pdf2text.php:204-206 | once the loop has given up, reading more cannot undo it |
| AsciiHexProperties.RoundTrip | src/Pdf2text/Pdf2text.php:181-227 | decoding the hex encoding of bytes b closed by '>' gives b followed by one pad byte, 16 times the last high nibble, or chr(-16) for no bytes |
| AsciiHexProperties.OddDigitDropped | src/Pdf2text/Pdf2text.php:223-225 | after an odd number of digits no pad byte is written and the lone digit is dropped |
| AsciiHexProperties.NoTerminator | src/Pdf2text/Pdf2text.php:219-221 | an input with no '>' decodes to '' |
| AsciiHexProperties.DecodedHexRun | src/Pdf2text/Pdf2text.php:181-227 | a run of hex digits closed by '>' decodes to its pairs, plus the pad byte after an even count |
| AsciiHexProperties.PairsHexes | src/Pdf2text/Pdf2text.php:208-212 | the pairs of an upper-case hex encoding are the encoded bytes |
| Ascii85.DecodeAscii85 | src/Pdf2text/Pdf2text.php:236-310 | the decoder's loops return exactly Decoded(input), Thrown when the tail raises |
| Ascii85.GroupSum | src/Pdf2text/Pdf2text.php:282-284 | the sum of a complete group is the base-85 value of its five digits, most significant first |
| Ascii85.AppendGroup | src/Pdf2text/Pdf2text.php:285-287 | a complete group appends exactly four bytes, its sum's bytes most significant first |
| Ascii85.AppendTail | src/Pdf2text/Pdf2text.php:291-307 | a final group of 2 to 4 digits appends state - 1 bytes of the tail sum, or raises when one is the character '0' |
| Ascii85.SetAt | src/Pdf2text/Pdf2text.php:277 | $ords[$state] = v overwrites that entry or appends it, keeping the ones before |
| Ascii85.BodyLengthStep | src/Pdf2text/Pdf2text.php:243 | the main loop goes on exactly while there is a character and it is not '~' |
| Ascii85.ScanNoneSticks | src/Pdf2text/Pdf2text.php:272-274 | once the loop has given up, reading more cannot undo it |
| Ascii85.GiveUpRejects | src/Pdf2text/Pdf2text.php:272-274 | a character that makes the loop give up before '~' makes the result '' |
| Ascii85Properties.RoundTrip | src/Pdf2text/Pdf2text.php:236-310 | the base-85 encoding of whole four-byte groups, closed by "~>", decodes to the bytes, when no digit is '%' |
| Ascii85Properties.PartialRoundTrip | src/Pdf2text/Pdf2text.php:236-310 | whole groups followed by the first n + 1 digits of 1 to 3 more bytes padded with zeros, closed by "~>", decode to all the bytes, or throw when one of the last bytes is '0', when no digit is '%' |
| Ascii85Properties.RunTail | src/Pdf2text/Pdf2text.php:243-289 | after whole groups and the n + 1 digits of a partial group, the output holds the whole groups' bytes and the state is n + 1 with those digits stored |
| Ascii85Properties.FinishTail | src/Pdf2text/Pdf2text.php:291-307 | n + 1 stored digits of bytes t padded with zeros finish as t appended, or throw when t holds '0' |
| Ascii85Properties.GroupTailBytes | src/Pdf2text/Pdf2text.php:294-302 | the tail sum of the first m + 1 digits of a group whose last 4 - m bytes are zero gives back its first m bytes |
| Ascii85Properties.ScanRun | src/Pdf2text/Pdf2text.php:243-289 | the main loop over a prefix is the left fold of its per-character step |
| Ascii85Properties.RunAppend | src/Pdf2text/Pdf2text.php:243-289 | running over a + b is running over a, then over b from where a ended |
| Ascii85Properties.HornerBase85 | src/Pdf2text/Pdf2text.php:282-284 | the group sum of the base-85 digits of v is v |
| Ascii85Properties.GroupBytesValue32 | src/Pdf2text/Pdf2text.php:285-287 | the four bytes appended for the value of four bytes are those bytes |
| Ascii85Properties.RunGroup | src/Pdf2text/Pdf2text.php:276-288 | the five digits of a group's encoding append exactly that group's bytes |
| Ascii85Properties.HornerUPad | src/Pdf2text/Pdf2text.php:294-296 | the tail sum of n digits is one more than the value the standard's padding with 'u' gives |
| Ascii85Properties.TailSumClosed | src/Pdf2text/Pdf2text.php:294-296 | the tail sum in closed form: (value of the digits + 1) * 85^(5 - n) |
| Ascii85Properties.CommentSticks | src/Pdf2text/Pdf2text.php:246-251 | once a comment has started, nothing the loop reads changes the state |
| Ascii85Properties.CommentRunsToEnd | src/Pdf2text/Pdf2text.php:246-265 | a '%' ignores everything up to '~', line ends included |
| Ascii85Properties.ControlCharRejected | src/Pdf2text/Pdf2text.php:253-274 | a line feed, carriage return, tab or other character outside '!'..'u' (but ' ', 'z', '~') makes the result '' |
| Ascii85Properties.ZeroGroupShortcut | src/Pdf2text/Pdf2text.php:267-270 | 'z' between groups appends four zero bytes and decoding goes on |
| Ascii85Properties.ZeroInsideGroupRejected | src/Pdf2text/Pdf2text.php:267-274 | 'z' inside a group makes the result '' |
| Ascii85Properties.SingleDigitTailDiscards | src/Pdf2text/Pdf2text.php:291-292 | a final group of one digit makes the result '', dropping what was decoded before |
| Ascii85Properties.ZeroCharTailThrows | src/Pdf2text/Pdf2text.php:297-306 | the final group "0E" decodes to the byte '0', which raises an exception the catch does not take |
| Ascii85Properties.ZeroCharTail | src/Pdf2text/Pdf2text.php:297-306 | a tail whose first byte is the character '0' ends in Thrown |
| Ascii85Properties.PercentDigitCutsGroup | src/Pdf2text/Pdf2text.php:262-265 | the group 00 00 00 04, encoded "!!!!%", decodes to three zero bytes: its last digit starts a comment |
| Ascii85Properties.RunPercentGroup | src/Pdf2text/Pdf2text.php:262-265 | reading "!!!!%" stores four zero digits and leaves the decoder in a comment |
| Ascii85Properties.PercentTail | src/Pdf2text/Pdf2text.php:291-307 | four zero digits left over are finished as the three bytes 00 00 00 |
| Ascii85Properties.RunShape | src/Pdf2text/Pdf2text.php:277-281 | the ords array holds the digits of the current group, or five entries from a previous group |
| Ascii85Properties.DecodedBody | src/Pdf2text/Pdf2text.php:243-310 | decoding a body closed by "~>" is the main loop over the body, then the tail |
| Scanner.FindClose | src/Pdf2text/Pdf2text.php:128 | a lazy body ends at the first position where the closing matches |
| Scanner.MatchAt | src/Pdf2text/Pdf2text.php:128 | a match found at p starts at p and ends inside the string |
| Scanner.MatchAtFound | src/Pdf2text/Pdf2text.php:128 | where the opening matches and a closing follows, a match exists and closes no later than that closing |
| Scanner.Table | src/Pdf2text/Pdf2text.php:128-130 | the table of matches holds the match at every position, and each match ends after its start |
| Scanner.AllMatchesLeftmost | src/Pdf2text/Pdf2text.php:128-130 | preg_match_all's matches are leftmost: none starts between two of them, and each starts where the last ended or later |
| Scanner.LeftmostUnique | src/Pdf2text/Pdf2text.php:128-130 | the leftmost non-overlapping matches are unique: any list with that property is preg_match_all's |
| Scanner.SomeMatchFound | src/Pdf2text/Pdf2text.php:401-402 | a match anywhere after p means preg_match_all from p finds at least one |
| Scanner.AllFromMember | src/Pdf2text/Pdf2text.php:128-130 | every match preg_match_all returns is the match at its start position |
| Scanner.CloseTdArray | src/Pdf2text/Pdf2text.php:401-412 | where the closing "] Tj" of the third pattern matches, the closing "] TJ" of the first matches too |
| Scanner.OpenTdArray | src/Pdf2text/Pdf2text.php:411 | the third pattern's capture starts with '[' |
| Scanner.OpenTdString | src/Pdf2text/Pdf2text.php:406 | the second pattern's capture starts with '(' |
| Scanner.CloseTdString | src/Pdf2text/Pdf2text.php:406 | the second pattern's capture ends with ')' |
| Scanner.DigitRun | src/Pdf2text/Pdf2text.php:429-432 | the run of digits at i is maximal |
| Options.GetObjectOptions | src/Pdf2text/Pdf2text.php:329-351 | returns ObjectOptions(obj), an ordered array with distinct keys |
| Options.BuildOptions | src/Pdf2text/Pdf2text.php:338-345 | the loop over the pieces builds exactly Build(pieces) |
| Options.BuildSnoc | src/Pdf2text/Pdf2text.php:338-345 | one more piece is one more assignment of its entry |
| Options.Put | src/Pdf2text/Pdf2text.php:342-344 | assignment keeps the keys distinct: an existing key keeps its place, a new one goes last |
| Options.Remove | src/Pdf2text/Pdf2text.php:149 | unset drops exactly the key and keeps the others distinct |
| Options.Lookup | src/Pdf2text/Pdf2text.php:143-145 | a lookup is missing exactly when the key is not among the keys |
| Options.LookupAt | src/Pdf2text/Pdf2text.php:143-145 | with distinct keys, the entry holding a key is what the lookup finds |
| Options.PutLookup | src/Pdf2text/Pdf2text.php:342-344 | after assigning v to k, k reads v and every other key reads as before |
| Options.RemoveLookup | src/Pdf2text/Pdf2text.php:149 | unset of one key leaves every other key's value |
| Options.BuildLookup | src/Pdf2text/Pdf2text.php:338-345 | each key maps to the value of its last piece: later duplicates overwrite earlier ones |
| Options.BuildKeys | src/Pdf2text/Pdf2text.php:338-345 | the keys come in the order of their first occurrence |
| Options.Entries | src/Pdf2text/Pdf2text.php:339-344 | one entry per piece, in order |
| Options.NoDictionary | src/Pdf2text/Pdf2text.php:331-333 | an object with no "<<...>>" has an empty array |
| Options.SecondWordOnly | src/Pdf2text/Pdf2text.php:339-342 | a piece "a b rest" maps a to b alone, whatever follows |
| Options.TwoWords | src/Pdf2text/Pdf2text.php:341-342 | exploding "a b rest" on ' ' gives a and b first |
| StreamDecoder.GetDecodedStream | src/Pdf2text/Pdf2text.php:360-390 | the loop returns exactly DecodedStream, Thrown as soon as a decoder raises |
| StreamDecoder.CutLength | src/Pdf2text/Pdf2text.php:367-369 | with no Length entry the whole stream is kept |
| StreamDecoder.ChainThrownSticks | src/Pdf2text/Pdf2text.php:371-385 | once a decoder has raised, the remaining keys cannot undo it |
| StreamDecoder.ChainAppend | src/Pdf2text/Pdf2text.php:371-385 | running keys k1 + k2 is running k1, then k2 on its result |
| StreamDecoder.OnlyFilterNamesAct | src/Pdf2text/Pdf2text.php:371-385 | the result is that of the decoder names among the keys, in key order; every other key is a no-op |
| StreamDecoder.FilterNames | src/Pdf2text/Pdf2text.php:373-381 | only the three decoder names are kept |
| StreamDecoder.ClosingBracketSkipped | src/Pdf2text/Pdf2text.php:371-385 | the last name of a filter array, "FlateDecode]", is no decoder name and is skipped |
| StreamDecoder.OneFilterName | src/Pdf2text/Pdf2text.php:364-385 | with one decoder name among the keys, the stream goes through that decoder alone |
| StreamDecoder.HexStreamRoundTrip | src/Pdf2text/Pdf2text.php:360-390 | an ASCIIHexDecode stream of hex-encoded bytes decodes to those bytes plus the pad byte |
| StreamDecoder.Ascii85StreamRoundTrip | src/Pdf2text/Pdf2text.php:360-390 | an ASCII85Decode stream of encoded whole groups decodes to the bytes |
| StreamDecoder.Ascii85StreamPartialRoundTrip | src/Pdf2text/Pdf2text.php:360-390 | an ASCII85Decode stream of whole groups and a final partial group decodes to all the bytes, or throws when a last byte is '0' |
| TextOperators.GetDirtyTexts | src/Pdf2text/Pdf2text.php:398-419 | the texts come back extended by exactly DirtyTexts(containers) |
| TextOperators.DirtyTextsAppend | src/Pdf2text/Pdf2text.php:400-417 | containers contribute independently and in order |
| TextOperators.DirtyTextsCount | src/Pdf2text/Pdf2text.php:400-417 | at most one text per container, one for each exactly when every container matches a pattern |
| TextOperators.PresentCount | src/Pdf2text/Pdf2text.php:400-417 | keeping the present texts keeps at most all of them, all exactly when none is missing |
| TextOperators.PresentAppend | src/Pdf2text/Pdf2text.php:403-415 | array_merge keeps the order of what it joins |
| TextOperators.MapAll | src/Pdf2text/Pdf2text.php:400 | each container in turn is read on its own |
| TextOperators.TdArrayShadowed | src/Pdf2text/Pdf2text.php:401-415 | the third pattern never decides: a container's text is the first pattern's, else the second's |
| TextOperators.TdStringParenthesised | src/Pdf2text/Pdf2text.php:406-410 | what the second pattern captures keeps its parentheses |
| CMap.GetCharTransformations | src/Pdf2text/Pdf2text.php:427-473 | the table comes back with exactly the bfchar writes, then the bfrange writes, of the stream's blocks in order |
| CMap.WriteBlocks | src/Pdf2text/Pdf2text.php:434-471 | the blocks of one kind are applied in order |
| CMap.WriteLines | src/Pdf2text/Pdf2text.php:436-442 | a block applies its first min(count, lines) lines in order |
| CMap.WriteLine | src/Pdf2text/Pdf2text.php:438-469 | one line applies exactly the writes its kind gives it |
| CMap.WriteOffsets | src/Pdf2text/Pdf2text.php:453-456 | the offset loop applies exactly OffsetWrites |
| CMap.WriteArray | src/Pdf2text/Pdf2text.php:463-468 | the array loop applies exactly ArrayWrites |
| CMap.OffsetTable | src/Pdf2text/Pdf2text.php:448-457 | the offset form maps %04X(from + i) to %04X(dst + i) for every code up to to |
| CMap.OffsetFirst | src/Pdf2text/Pdf2text.php:453-456 | the first code of a range maps to the destination |
| CMap.OffsetLast | src/Pdf2text/Pdf2text.php:453-456 | code from + i is last written with dst + i |
| CMap.OffsetLater | src/Pdf2text/Pdf2text.php:453-456 | a key the rest of the range writes keeps that value |
| CMap.OffsetMissing | src/Pdf2text/Pdf2text.php:453-456 | no code below from is written |
| CMap.ArrayTable | src/Pdf2text/Pdf2text.php:458-469 | the array form maps %04X(from + i) to %04X(hexdec(part i)) while both last |
| CMap.ArrayLast | src/Pdf2text/Pdf2text.php:463-468 | code from + i is last written with the i-th part |
| CMap.ArrayMissing | src/Pdf2text/Pdf2text.php:463-468 | no code below from is written |
| CMap.ArrayWritesLength | src/Pdf2text/Pdf2text.php:463-468 | the array form writes min(to - from + 1, count(parts)) entries |
| CMap.ApplyWritesLookup | src/Pdf2text/Pdf2text.php:440 | after a list of writes a key holds its last write, or its old value when none names it |
| CMap.ApplyWritesSnoc | src/Pdf2text/Pdf2text.php:440 | one more write overwrites its key |
| CMap.LastWriteCons | src/Pdf2text/Pdf2text.php:440 | an earlier write counts only when no later one names the key |
| CMap.LastWriteNone | src/Pdf2text/Pdf2text.php:440 | a key no write names is not written |
| CMap.Hex4Injective | src/Pdf2text/Pdf2text.php:454-455 | distinct codes give distinct %04X keys |
| CMap.LineKeysFour | src/Pdf2text/Pdf2text.php:438-469 | every key a line writes is four characters long |
| CMap.OnlyFourDigitCodes | src/Pdf2text/Pdf2text.php:427-473 | keys of any other length keep their value |
| CMap.TransformationsWrites | src/Pdf2text/Pdf2text.php:427-473 | the table a stream leaves is one ordered list of writes applied to the old table: every bfchar block's lines, then every bfrange block's |
| CMap.StreamTable | src/Pdf2text/Pdf2text.php:427-473 | after a stream a key holds the last value the stream writes to it; a key no line writes keeps its old value or stays missing |
| CMap.RangesOverChars | src/Pdf2text/Pdf2text.php:427-473 | a bfrange write to a key wins over the bfchar writes to it; without one the last bfchar write counts |
| CMap.ApplyLinesWrites | src/Pdf2text/Pdf2text.php:437-471 | the lines a block reads apply their writes in line order |
| CMap.ApplyBlocksWrites | src/Pdf2text/Pdf2text.php:434-472 | the blocks of one kind apply their writes in block order |
| CMap.LinesPastCountIgnored | src/Pdf2text/Pdf2text.php:437 | lines past a block's count change nothing |
| CMap.ShortCodePaddedRight | src/Pdf2text/Pdf2text.php:438-440 | "<41> <0041>" maps "4100", not "0041": short codes are padded on the right |
| CMap.CharPairAt | src/Pdf2text/Pdf2text.php:438 | a bfchar match is a 2-4 digit code and a 4-512 digit destination |
| CMap.RangeTripleAt | src/Pdf2text/Pdf2text.php:448 | an offset bfrange match is three four-digit codes |
| CMap.RangeArrayAt | src/Pdf2text/Pdf2text.php:458 | an array bfrange match is two four-digit codes and a body without ']' |
| CMap.Leftmost | src/Pdf2text/Pdf2text.php:438 | preg_match finds the first position at or after p where the pattern matches, and finds none exactly when no position from p on matches |
| CMap.LinesRead | src/Pdf2text/Pdf2text.php:437 | a block reads min(count, lines) lines: no more than either, and as many as one of them |
| Renderer.GetTextUsingTransformations | src/Pdf2text/Pdf2text.php:482-559 | the document is exactly Rendered: every text in order, each followed by one newline |
| Renderer.AppendText | src/Pdf2text/Pdf2text.php:492-555 | the inner loop appends exactly TextOut(text) |
| Renderer.Step | src/Pdf2text/Pdf2text.php:493-552 | one pass of the switch is one Next step |
| Renderer.AppendHex | src/Pdf2text/Pdf2text.php:502-510 | '>' appends exactly HexOut of the hex buffer |
| Renderer.Next | src/Pdf2text/Pdf2text.php:493-552 | every pass moves the index forward |
| Renderer.KeepDigits | src/Pdf2text/Pdf2text.php:538-539 | the octal cleanup keeps only digits |
| Renderer.KeepDigitsCounts | src/Pdf2text/Pdf2text.php:538-539 | the octal cleanup keeps each digit as often as it occurs, and nothing else |
| Renderer.KeepDigitsAppend | src/Pdf2text/Pdf2text.php:538-539 | the digits of a + b are those of a followed by those of b, so their order is kept |
| Renderer.RenderedSplit | src/Pdf2text/Pdf2text.php:484-557 | no state carries over between texts: the document of a list is the documents of its two parts joined |
| Renderer.RenderedPrefix | src/Pdf2text/Pdf2text.php:484-557 | the first n texts render the same whatever follows them |
| Renderer.PlainChars | src/Pdf2text/Pdf2text.php:547-552 | in plain mode, ordinary characters go to the plain buffer and nothing is output |
| Renderer.HexChars | src/Pdf2text/Pdf2text.php:547-552 | in hex mode, ordinary characters go to the hex buffer and nothing is output |
| Renderer.PlainVerbatim | src/Pdf2text/Pdf2text.php:513-521 | "(p)" with ordinary characters renders to p verbatim |
| Renderer.StalePlainFlushed | src/Pdf2text/Pdf2text.php:518-521 | a second ')' outputs the stale plain buffer again: "(p))" renders to p twice |
| Renderer.PlainRun | src/Pdf2text/Pdf2text.php:513-517 | after "(p" the plain buffer holds p and nothing has been output |
| Renderer.HexRun | src/Pdf2text/Pdf2text.php:496-500 | after "<h" the hex buffer holds h and nothing has been output |
| Renderer.HexVerbatim | src/Pdf2text/Pdf2text.php:496-512 | "<h>" renders to HexOut(h) |
| Renderer.StaleHexFlushed | src/Pdf2text/Pdf2text.php:501-512 | a second '>' outputs the stale hex buffer again |
| Renderer.HexTextCons | src/Pdf2text/Pdf2text.php:503-510 | the chunks are output in order, each on its own |
| Renderer.HexOutOneChunk | src/Pdf2text/Pdf2text.php:502-510 | a buffer of at most multibyte digits is one chunk |
| Renderer.HexOutAppend | src/Pdf2text/Pdf2text.php:502-510 | a buffer is split into chunks of multibyte digits from the left |
| Renderer.ShortChunkPaddedRight | src/Pdf2text/Pdf2text.php:505-509 | a two-digit chunk is padded on the right ("41" looks up "4100") and its table entry replaces it |
| Renderer.EscapedDelimiter | src/Pdf2text/Pdf2text.php:525-526 | "\\", "\(" and "\)" add the escaped character and skip two |
| Renderer.EscapedLetter | src/Pdf2text/Pdf2text.php:527-536 | "\n", "\r", "\t", "\b" and "\f" add the two characters backslash and letter |
| Renderer.UnknownEscapeDropped | src/Pdf2text/Pdf2text.php:522-545 | a backslash followed by any character that is not a delimiter, one of n r t b f or a digit adds nothing and skips both |
| Renderer.OctalEscape | src/Pdf2text/Pdf2text.php:537-544 | three digits after a backslash add the entity of their octal value, decoded with convertQuotes, and skip four |
| Renderer.KeepThreeDigits | src/Pdf2text/Pdf2text.php:538-539 | the cleanup keeps three digits as they are |
| Renderer.OctalRereads | src/Pdf2text/Pdf2text.php:537-544 | with a non-digit between two digits, the index moves by three, so the second digit is read again as text |
| Pdf2text.Pdf2text.constructor | src/Pdf2text/Pdf2text.php:55-66 | starts from ENT_QUOTES, a chunk width of 4 and no text, then applies the options |
| Pdf2text.Pdf2text.SetOptions | src/Pdf2text/Pdf2text.php:89-99 | a given non-empty convertQuotes is taken; a given multibyteUnicode sets the width to 4, so the width stays 4 |
| Pdf2text.Pdf2text.DecodePdf | src/Pdf2text/Pdf2text.php:116-166 | an empty file changes nothing; otherwise decodedText is the rendering of the texts and table the objects give, or unchanged when a decoder raises |
| Pdf2text.Pdf2text.Decode | src/Pdf2text/Pdf2text.php:68-72 | returns the decoded text, or Thrown when decoding raises |
| Pdf2text.DecodeObject | src/Pdf2text/Pdf2text.php:137-151 | an object's decoded stream: none without a stream or for a font or image, else the filter chain on the whole stream |
| Pdf2text.ClassifyData | src/Pdf2text/Pdf2text.php:153-161 | a decoded stream goes to getDirtyTexts or getCharTransformations exactly as Classify says |
| Pdf2text.ProcessObject | src/Pdf2text/Pdf2text.php:133-162 | one pass of the object loop is one ObjectStep |
| Pdf2text.GatherObjects | src/Pdf2text/Pdf2text.php:132-163 | the object loop gives exactly what the steps give over all objects, stopping at an exception |
| Pdf2text.RestCollect | src/Pdf2text/Pdf2text.php:132-163 | running the remaining objects on what the first i gave is running them all |
| Pdf2text.CollectThrownSticks | src/Pdf2text/Pdf2text.php:151 | once a decoder has raised, the later objects cannot undo it |
| Pdf2text.ClassifyExclusive | src/Pdf2text/Pdf2text.php:153-161 | a stream adds texts or transformations, never both; texts only when it is non-empty with text objects, transformations only when it is non-empty without |
| Pdf2text.StepKeepsTexts | src/Pdf2text/Pdf2text.php:133-162 | one object keeps the texts gathered before it in front |
| Pdf2text.CollectKeepsTexts | src/Pdf2text/Pdf2text.php:132-163 | a step that keeps earlier texts in front keeps them over any number of objects |
| Pdf2text.TextsInOrder | src/Pdf2text/Pdf2text.php:132-163 | texts are gathered in the order of the objects: the first m objects' texts are a prefix of the first n objects' |
| Pdf2text.GuardedObjectSkipped | src/Pdf2text/Pdf2text.php:143-147 | an object with a non-empty Length1, Type or Subtype changes nothing |
| Pdf2text.UnsetLengthNeverCuts | src/Pdf2text/Pdf2text.php:149-151 | with Length unset, the stream is returned whole without a Filter, else the whole stream goes through the chain |

## Left out

- Reading the file (`file_get_contents`) is left out: the model takes the file's bytes as input.
  The constructor's check for a missing file name (and the exception it raises) and `setFilename`
  are left out too.
- `@set_time_limit()` (line 135) is called without its argument. From PHP 8.0 this throws an
  `ArgumentCountError`, which `@` does not silence, at the first object of every file that has
  one. The model treats the call as returning and leaves it out.
- `output()` (lines 106-109) only returns `decodedText`. `Decode` returns the field directly.
- `gzuncompress` (`decodeFlate`, lines 318-321) is zlib. It is the function parameter `inflate`.
  Its failure value `false` is taken as `''`, which is how `strlen` and the decoders treat it.
- `html_entity_decode` depends on PHP's entity tables. It is a function parameter with the flags
  it is called with: 11 (ENT_QUOTES | ENT_SUBSTITUTE | ENT_HTML401, the default since PHP 8.1)
  for hex chunks, and `convertQuotes` for octal escapes.
- The PCRE engine is not modelled. Each regular expression is a scanner for its pattern:
  case-insensitive, lazy bodies, leftmost matches. `[\n|\r]` accepts `'|'` too, as in PCRE.
- `str_split('')` follows PHP 8.2 and later, which gives an empty array (earlier versions give `[""]`).
- Array keys that look like integers are kept as strings. PHP would turn them into ints. The
  filter `switch ($key)` (lines 372-381) is taken with PHP 8 comparison, where an int key never
  equals a filter name; under PHP 7 the key `0` would equal `'ASCIIHexDecode'`.
- `hexdec` and `count` results too large for a PHP int (where PHP switches to float) are not
  modelled. Integers are unbounded.
- StreamDecoder.GetDecodedStream: requires LengthCovered. It covers a Length entry that is
  missing, true, or a string of digits. Other strings depend on PHP's string-to-int coercion and
  are not modelled. The one caller unsets Length first, so this never matters to `decodePDF`.
- StreamDecoder.CutLength: requires LengthCovered, for the same reason.
- Option values given to the constructor and `setOptions` are ints. A PHP caller can pass any
  type; only emptiness and the value matter.
