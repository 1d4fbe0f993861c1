# MemorySurfer back end in Dafny

MemorySurfer is a flashcard program. Its CGI back end, written in C, keeps
decks of question/answer cards in one indexed memory file. This project
models the core of that back end and proves properties of the model:

- **String arrays** (`struct StringArray` in `memorysurfer.c`). A string
  array is a packed buffer of NUL-terminated strings with a count. The
  model is the class `StringArrays.StringArray`. Its buffer is tied to the
  list of strings it holds through the layout function `Pack`.
- **Text codecs** (`memorysurfer.c`):
  - form-field percent decoding (`percent2c`, in `PercentCodec`);
  - XML escaping of `&`, `<` and `"` (as `&amp;`, `&lt;`, `&quot;`, chosen by a
    mask) and unescaping of `&amp;` and `&lt;` (`XmlText`);
  - lower-case hex printing and scanning (`HexCodec`);
  - ASCII lower-casing, UTF-8 lead-byte classes, `utf8_strcspn` and the
    error-code spelling `e2str` (`TextRoutines`);
  - the duration text of `set_time_str` (`TimeText`).
- **The card list** of a deck (`card_l`, `card_a`, `card_i`, `mov_card_i`).
  It is the class `Cards.CardList` with the actions insert, append, delete,
  move, previous/next, search, schedule, proceed, suspend and resume.
- **The deck tree** (`cat_t`, `cat_a`, `n_first`). It is the class
  `Decks.DeckTree`. Ghost state, a link and a rank per deck, shows that the
  decks form a forest. Create, delete, move and toggle keep that forest.
  `ms_open` finds the top level.
- **The chunk table of the indexed memory file**
  (`imf/indexedmemoryfile.c`). It is the class
  `IndexedMemoryFile.ChunkTable`, with:
  - the position-sorted order, kept by insertion sort;
  - placement: the first exact gap, else the smallest large gap;
  - table growth and the free-slot search;
  - put with relocation;
  - deferred deletion, committed by sync;
  - the file length and the swap and gap statistics.
- **SHA-1** (`imf/sha1.c`). It is the class `Sha1.Sha1Context`, proved
  against a functional SHA-1 defined as in FIPS PUB 180-1 (padding,
  section 4; functions and constants, sections 5 and 6; computation,
  section 7). Reset, input, then result writes the digest of all bytes
  input.

Every part of the source that updates state in place is a class or a
method over arrays. Each such method is proved against a specification
function, and the properties the source promises are lemmas about those
functions.

The file contents, time (`time(NULL)`) and the data read from the file are
not modelled as I/O. They are parameters: `now` for the clock, and
`loaded` for the decks and chunks read at open.

## Model

| member | source | states |
|---|---|---|
| StringArrays.CountNul | memorysurfer.c:907-910 | the number of NUL bytes the `sa_load` loop counts is at most the buffer length |
| StringArrays.FirstNul | memorysurfer.c:1869-1871 | the offset where a `do … while (ch != '\0')` scan stops is a NUL with no NUL before it |
| StringArrays.Assign | memorysurfer.c:392-396 | after `sa_set(sa, i, s)` the count is the old count, or i + 1 when i is beyond it, and entry i is s |
| StringArrays.AssignAt | memorysurfer.c:403-429 | entry j after `sa_set(sa, i, s)` is s at i, the old string below the old count, and empty elsewhere |
| StringArrays.PackConcat | memorysurfer.c:403-429 | the layout of two lists of strings is the layout of the first followed by that of the second |
| StringArrays.PackSnoc | memorysurfer.c:403-429 | laying out one more string appends it and its terminator |
| StringArrays.PackPrefix | memorysurfer.c:1866-1874 | the layout of a prefix of the strings is a prefix of the layout |
| StringArrays.PackLength | memorysurfer.c:501-512 | the layout is as long as the sum of the string lengths plus one terminator per string |
| StringArrays.Located | memorysurfer.c:1866-1874 | string k sits in the buffer at the length of the layout of the strings before it |
| StringArrays.CountConcat | memorysurfer.c:907-910 | the NUL count of two buffers together is the sum of their counts |
| StringArrays.CountNone | memorysurfer.c:907-910 | a buffer without NUL counts zero |
| StringArrays.CountPack | memorysurfer.c:907-910 | the count `sa_load` takes of the layout of C strings is the number of strings |
| StringArrays.UnpackCount | memorysurfer.c:907-910 | reading the strings back from a buffer finds one string per NUL |
| StringArrays.FirstNulAt | memorysurfer.c:1869-1871 | a NUL with no NUL before it is the first NUL |
| StringArrays.UnpackPack | memorysurfer.c:361-437 | reading back the layout of C strings gives the strings (round trip) |
| StringArrays.PackUnpack | memorysurfer.c:882-914 | a buffer that is empty or ends with NUL is exactly the layout of its strings (round trip) |
| StringArrays.AssignLength | memorysurfer.c:375-396 | the size the first pass of `sa_set` computes is the length of the layout of the new strings |
| StringArrays.EmptiesLength | memorysurfer.c:393-395 | n empty strings take n bytes |
| StringArrays.SkipString | memorysurfer.c:379-389 | stepping over the C string at offset p ends one past its terminator |
| StringArrays.CopyString | memorysurfer.c:406-421 | copying a C string appends it and its terminator to the destination and advances both cursors past it |
| StringArrays.CompareString | memorysurfer.c:3480-3486 | the byte loop of `sa_cmp` finds two C strings at the same offset equal exactly when they are equal |
| StringArrays.StringArray.constructor | memorysurfer.c:2109-2114 | `sa_init`: no strings and an empty buffer |
| StringArrays.StringArray.Length | memorysurfer.c:501-512 | `sa_length` is the length of the layout of the strings |
| StringArrays.StringArray.Get | memorysurfer.c:1858-1877 | `sa_get` is NULL exactly when the index is at or beyond the count; otherwise it points at string i |
| StringArrays.StringArray.Set | memorysurfer.c:361-437 | `sa_set` leaves the buffer holding the layout of the strings with entry i replaced by s and the gap filled with empty strings |
| StringArrays.StringArray.SetSize | memorysurfer.c:375-396 | the first pass yields the new buffer size and the new count |
| StringArrays.StringArray.SetCopy | memorysurfer.c:397-429 | the copy pass writes exactly the layout of the new strings into a new buffer |
| StringArrays.StringArray.CopyEntry | memorysurfer.c:404-428 | one round of the copy pass extends the written layout by one entry |
| StringArrays.StringArray.Load | memorysurfer.c:882-914 | `sa_load` grows the buffer only when too small, copies the chunk in and sets the count to its NUL count |
| StringArrays.StringArray.Equals | memorysurfer.c:3464-3491 | `sa_cmp` is true exactly when both arrays hold the same strings |
| StringArrays.StringArray.Move | memorysurfer.c:3494-3503 | `sa_move`: the destination takes over the source's buffer and strings; the source is left empty |
| PercentCodec.UpperHexValue | memorysurfer.c:302 | the value of an upper-case hex digit is its place in the digit table |
| PercentCodec.PrefixedTwice | memorysurfer.c:307-356 | writing a then b before a decoding is writing a + b |
| PercentCodec.TailChars | memorysurfer.c:313-315 | the `%0D%0A` test is a comparison with the five characters after the `%` |
| PercentCodec.Head | memorysurfer.c:309-353 | one decoding step consumes at least one and at most the remaining characters, or fails with 1 or -1 |
| PercentCodec.PercentDecode | memorysurfer.c:295-359 | a decoded text is never longer than the input, so decoding in place is safe; failures are 1 or -1 |
| PercentCodec.HexLookup | memorysurfer.c:325-340 | the table loop finds a character exactly when it is an upper-case hex digit, with its value |
| PercentCodec.InTable | memorysurfer.c:302 | every upper-case hex digit is in the table |
| PercentCodec.ReadEscape | memorysurfer.c:312-350 | decoding a `%` escape agrees with the decoding step: a byte and its width, or the failure code |
| PercentCodec.ReadToken | memorysurfer.c:309-353 | decoding one character of input agrees with the decoding step |
| PercentCodec.Percent2c | memorysurfer.c:295-359 | `percent2c` succeeds exactly when the input decodes; the decoded text, NUL-terminated, replaces the start of the buffer and the rest is unchanged; a failure returns the decoding's code |
| PercentCodec.DecodeNext | memorysurfer.c:308-355 | one loop round writes one decoded byte and keeps the decoding of the rest of the input |
| PercentCodec.Step | memorysurfer.c:308-355 | writing the decoded byte and skipping its width keeps the overall decoding |
| PercentCodec.HeadConcat | memorysurfer.c:309-353 | the decoding step looks only at its own token |
| PercentCodec.DecodeConcat | memorysurfer.c:307-356 | decoding two inputs in turn is decoding them together |
| PercentCodec.BadEscapeFails | memorysurfer.c:321-330 | a `%` not followed by an upper-case hex digit (nor by `0D`) makes the whole input fail with -1 |
| PercentCodec.ControlEscapeFails | memorysurfer.c:341-345 | an escape of a byte below 32 other than tab, or of 127, makes the whole input fail with 1 |
| PercentCodec.DigitOf | memorysurfer.c:302 | every digit in the table is upper-case hex with its own place as value |
| PercentCodec.EncodeChar | memorysurfer.c:310-353 | the form encoding of one byte is at least one character |
| PercentCodec.PercentEncode | memorysurfer.c:295-359 | the form encoding is at least as long as the text |
| PercentCodec.DecodeChar | memorysurfer.c:310-353 | decoding the form encoding of one byte gives the byte back: `+` for space, `%0D%0A` for newline, `%XY` otherwise |
| PercentCodec.DecodeEncode | memorysurfer.c:295-359 | `percent2c` decodes the form encoding of any text back to the text (round trip) |
| PercentCodec.Percent2cAsWritten | memorysurfer.c:295-359 | the loop as written never makes the text longer than the input |
| PercentCodec.AsWrittenBound | memorysurfer.c:307-356 | from any read position, the written text stays within the input length |
| PercentCodec.LoneCarriageReturn | memorysurfer.c:313-320 | as written, `%41%0D&` decodes to `A40D` with success, while the decoding rejects `%0D` alone |
| XmlText.EscapeChar | memorysurfer.c:1901-1939 | one character escapes to itself or to an entity reference from `&` to `;`, at most six characters |
| XmlText.Escape | memorysurfer.c:1881-1943 | escaping never shortens the text |
| XmlText.Unescape | memorysurfer.c:514-547 | unescaping never lengthens the text, so it can work in place |
| XmlText.Grown | memorysurfer.c:1896-1900 | doubling the buffer plus one until six more characters fit gives at least the old size and the need |
| XmlText.GrownTwice | memorysurfer.c:1896-1900 | growing for a smaller need, then for a larger one, is growing for the larger one |
| XmlText.XmlEscape | memorysurfer.c:1881-1943 | `xml_escape` writes the escaped text and a NUL into a buffer grown by the doubling rule; a NULL text is the empty text |
| XmlText.EscapeOne | memorysurfer.c:1895-1939 | one loop round grows the buffer as needed and appends the escape of one character |
| XmlText.MatchWithin | memorysurfer.c:529-536 | the `memcmp` against `amp;` or `lt;` within the string is a prefix test of the rest of the string |
| XmlText.ReadChar | memorysurfer.c:526-543 | one loop round agrees with the unescaping: a character and the rest, or failure on a bad reference |
| XmlText.XmlUnescape | memorysurfer.c:514-547 | `xml_unescape` succeeds exactly when the text unescapes; the result, NUL-terminated, replaces the start and the rest is unchanged |
| XmlText.PrependedNil | memorysurfer.c:524-545 | writing nothing before a result leaves it |
| XmlText.PrependedStep | memorysurfer.c:524-545 | writing a character, then more, before a result is writing them together |
| XmlText.UnescapeConcat | memorysurfer.c:514-547 | unescaping two NUL-free texts in turn is unescaping them together |
| XmlText.PrependedTwice | memorysurfer.c:524-545 | writing c before b before a result is writing c + b |
| XmlText.UnescapeEscape | memorysurfer.c:1881-1943 | with mask `ESC_AMP\|ESC_LT`, `xml_unescape(xml_escape(s))` gives s back (round trip) |
| XmlText.BadReferenceFails | memorysurfer.c:527-545 | a `&` followed by neither `amp;` nor `lt;` makes unescaping fail |
| XmlText.Reserve | memorysurfer.c:1896-1900 | the growth loop keeps what was written and makes room for six more characters |
| XmlText.EscapeSnoc | memorysurfer.c:1893-1940 | escaping one more character appends its escape |
| XmlText.EscapeConcat | memorysurfer.c:1881-1943 | escaping two texts in turn is escaping them together |
| XmlText.Put | memorysurfer.c:1905-1937 | the `(*xml_str_ptr)[dest++] = …` writes append the given characters |
| XmlText.Realloc | memorysurfer.c:1898 | `realloc` keeps the old contents in a buffer of the new size |
| HexCodec.HexDigit | memorysurfer.c:3602-3606 | a nibble prints as a lower-case hex digit |
| HexCodec.NibbleValue | memorysurfer.c:973-976 | a hex digit scans to a nibble below 16 |
| HexCodec.DigitInTable | memorysurfer.c:3602-3606 | printing a nibble picks its place in `0123456789abcdef` |
| HexCodec.NibbleDigit | memorysurfer.c:962-983 | scanning a digit gives v exactly when v prints as that digit |
| HexCodec.HexByte | memorysurfer.c:3597-3608 | a byte prints as two lower-case hex digits |
| HexCodec.Hex | memorysurfer.c:3591-3610 | len bytes print as 2·len lower-case hex digits |
| HexCodec.Nibbles | memorysurfer.c:3598-3599 | `>> 4` and `& 0xf` are the only nibbles that rebuild the byte |
| HexCodec.DigitsOfByte | memorysurfer.c:962-983 | printing the byte two digits scan to gives those digits |
| HexCodec.ByteOfItsDigits | memorysurfer.c:980 | scanning the two digits of a byte gives the byte |
| HexCodec.Unhex | memorysurfer.c:962-983 | 2·len digits scan to len bytes |
| HexCodec.UnhexHex | memorysurfer.c:962-983 | `scan_hex` of the text `print_hex` wrote gives the bytes back (round trip) |
| HexCodec.HexUnhex | memorysurfer.c:3591-3610 | printing the bytes lower-case hex text scans to gives the text back (round trip) |
| HexCodec.LowerHexTail | memorysurfer.c:962-983 | a hex text is two hex digits followed by hex text |
| HexCodec.HexFrom | memorysurfer.c:3597-3609 | printing from byte k is byte k's digits followed by the rest |
| HexCodec.PrintHex | memorysurfer.c:3591-3610 | `print_hex` writes exactly the 2·len digits of the bytes and a NUL, nothing else |
| HexCodec.PutByte | memorysurfer.c:3598-3608 | one round writes the two digits of one byte and nothing else |
| HexCodec.ScanHex | memorysurfer.c:962-983 | `scan_hex` fails (-1) exactly when some character is outside `0-9a-f`; on success the bytes are the scanned text; bytes past len are untouched |
| HexCodec.ReadPair | memorysurfer.c:970-979 | the inner loop accepts exactly two hex digits and forms their byte |
| TextRoutines.Lowered | memorysurfer.c:3547-3574 | lower-casing keeps the length |
| TextRoutines.LoweredAt | memorysurfer.c:3547-3574 | character k lower-cased is the lower-cased character k |
| TextRoutines.LoweredEqual | memorysurfer.c:3547-3574 | two texts lower-case equally exactly when every character does |
| TextRoutines.LoweredIdempotent | memorysurfer.c:3547-3574 | no upper-case letter survives lower-casing, other characters are kept, and lower-casing twice is lower-casing once |
| TextRoutines.StrToLower | memorysurfer.c:3547-3574 | `str_tolower` lower-cases the string in place and nothing past it |
| TextRoutines.LoweredSnoc | memorysurfer.c:3547-3574 | lower-casing one more character appends its lower case |
| TextRoutines.Utf8CharLen | memorysurfer.c:3660-3675 | a lead byte gives a sequence length of at most four |
| TextRoutines.Utf8Classes | memorysurfer.c:3660-3675 | lengths 1, 2, 3, 4 and 0 go exactly to the lead-byte classes of section 3 of RFC 3629 |
| TextRoutines.RevealStopsTokens | memorysurfer.c:3677-3709 | the reject set the caller passes splits into the characters `,`, `·`, `.` and `-` |
| TextRoutines.TokensStep | memorysurfer.c:3691-3705 | stepping by the lead byte's length takes off exactly one reject character |
| TextRoutines.AnyMatchCons | memorysurfer.c:3691-3705 | some reject character matches exactly when the first does or one of the rest does |
| TextRoutines.EndMatches | memorysurfer.c:3677-3709 | at the end of s every reject character matches, so the scan stops at the NUL |
| TextRoutines.MatchChar | memorysurfer.c:3693-3700 | the byte comparison finds exactly whether the reject character occurs at the position |
| TextRoutines.RejectStep | memorysurfer.c:3688-3706 | one round over the reject set matches one character or reports an invalid lead byte |
| TextRoutines.ScanRejects | memorysurfer.c:3686-3707 | the scan over the reject set finds whether any reject character matches at the position |
| TextRoutines.Utf8Strcspn | memorysurfer.c:3677-3709 | `utf8_strcspn` gives the first offset at which a reject character matches, the length of s when none does, and an error for an invalid lead byte |
| TextRoutines.Letters | memorysurfer.c:3612-3633 | an error code spells as capital letters |
| TextRoutines.LettersRoundTrip | memorysurfer.c:3612-3633 | reading the letters back as base-27 digits gives the code when none of its base-27 digits is zero (round trip) |
| TextRoutines.ZeroDigitsCollide | memorysurfer.c:3612-3633 | codes 2 and 54 both spell `B`: a zero digit is dropped |
| TextRoutines.OpenFailedSpelling | memorysurfer.c:958 | the `ms_open` code 0x052e8351 spells `WMSOAF` |
| TextRoutines.E2Str | memorysurfer.c:3612-3633 | `e2str` writes the spelling of the error code |
| TimeText.Quot | memorysurfer.c:2012-2083 | C division of a non-negative number leaves a remainder in range |
| TimeText.ValidBits | memorysurfer.c:2024-2053 | `valid_c` has exactly the bits of the leading unit and of the unit after it |
| TimeText.Printed | memorysurfer.c:2054-2082 | the `sprintf` calls print nothing when no unit bit is set, and end with the seconds when seconds are in view and minutes are not |
| TimeText.TimeStr | memorysurfer.c:2012-2083 | the text `set_time_str` writes for an interval is never empty and ends with a unit letter |
| TimeText.Split | memorysurfer.c:2012-2083 | seconds split into six units: years, months, days, hours, minutes, seconds |
| TimeText.SplitSum | memorysurfer.c:2012-2083 | the units weighted by their lengths in seconds add up to the time |
| TimeText.SplitRests | memorysurfer.c:2012-2083 | each unit is the quotient of what the larger units left |
| TimeText.SplitBound | memorysurfer.c:2012-2083 | every unit is non-negative and what it leaves is less than one of it |
| TimeText.Decimal | memorysurfer.c:2012-2083 | `%d` prints at least one digit |
| TimeText.DecimalValue | memorysurfer.c:2012-2083 | the printed digits read back to the number |
| TimeText.Lead | memorysurfer.c:2012-2083 | the leading unit is the first non-zero one, seconds when all are zero |
| TimeText.ShownOf | memorysurfer.c:2012-2083 | one or two units are shown |
| TimeText.Shown | memorysurfer.c:2012-2083 | one or two units are shown for a time |
| TimeText.PrintedShown | memorysurfer.c:2012-2083 | the text printed is the leading unit and, when non-zero, the next one |
| TimeText.PrintedLeadYears | memorysurfer.c:2012-2083 | the same when years lead |
| TimeText.PrintedLeadMonths | memorysurfer.c:2012-2083 | the same when months lead |
| TimeText.PrintedLeadDays | memorysurfer.c:2012-2083 | the same when days lead |
| TimeText.PrintedLeadHours | memorysurfer.c:2012-2083 | the same when hours lead |
| TimeText.PrintedLeadMinutes | memorysurfer.c:2012-2083 | the same when minutes lead |
| TimeText.PrintedLeadSeconds | memorysurfer.c:2012-2083 | the same when seconds lead |
| TimeText.TimeStrShown | memorysurfer.c:2012-2083 | `set_time_str` prints the units shown |
| TimeText.ShownValue | memorysurfer.c:2012-2083 | the time shown is at most the time and falls short of it by less than one unit after the leading one |
| TimeText.LeadingZeros | memorysurfer.c:2012-2083 | leading zero units add nothing |
| Cards.NewCard | memorysurfer.c:4704-4709 | a new card is a minute strong (`lvl_s[0]`) and new |
| Cards.Removed | memorysurfer.c:4775-4783 | removing card i moves the cards behind it down by one |
| Cards.Inserted | memorysurfer.c:4693-4703 | inserting at i puts the card there and moves the cards from i on up by one |
| Cards.RemoveInserted | memorysurfer.c:4693-4783 | removing a card just inserted gives the list back |
| Cards.InsertRemoved | memorysurfer.c:4693-4783 | putting a removed card back at its place gives the list back |
| Cards.Moved | memorysurfer.c:4896-4927 | a move keeps the length and puts the moved card at its destination |
| Cards.MovedPermutes | memorysurfer.c:4896-4927 | `A_MOVE_CARD` leaves the list a permutation of what it was |
| Cards.MovedBack | memorysurfer.c:4896-4927 | moving the card back undoes a move |
| Cards.MoveSlot | memorysurfer.c:4908-4916 | as written, the destination is at most one slot from the current card |
| Cards.MoveSlotInRange | memorysurfer.c:4908-4916 | with both cards in the list, the destination is a slot of the list exactly when the move is not Behind the last card onto itself; a current card other than the moved one always fits |
| Cards.MoveOntoItself | memorysurfer.c:4896-4927 | moving the current card onto itself: Before puts it back in its own place, Behind swaps it with the card behind it |
| Cards.MoveBehindItself | memorysurfer.c:4908-4916 | as written, Behind with the current and the moved card both last gives a slot one past the end |
| Cards.MoveBeside | memorysurfer.c:4896-4927 | after the move the moved card sits right before (Before) or right behind (Behind) the current card |
| Cards.Stepped | memorysurfer.c:4823-4864 | previous/next clamps the current card into the list, -1 for an empty list |
| Cards.StepBack | memorysurfer.c:4806-4871 | previous undoes next, except on the last card, where next stays put |
| Cards.Hits | memorysurfer.c:5035-5102 | the matching cards are those whose question or answer contains the search text, case folded |
| Cards.Wrap | memorysurfer.c:5035-5102 | a search step wraps around the list |
| Cards.Gap | memorysurfer.c:5035-5102 | the steps left until the search is back where it began, zero only there |
| Cards.Scan | memorysurfer.c:5035-5102 | the circular search ends on a matching card or where it began |
| Cards.GapStep | memorysurfer.c:5035-5102 | each step brings the search one card closer to where it began |
| Cards.ScanReaches | memorysurfer.c:5035-5102 | a search with a matching card still ahead ends on a matching card |
| Cards.ScanFindsAny | memorysurfer.c:5035-5102 | the search finds a matching card, or stays where it began when no card matches |
| Cards.WithState | memorysurfer.c:4872-4875 | changing the state of card i keeps every other field and every other card |
| Cards.ResumedCard | memorysurfer.c:5216-5247 | a resumed card is not suspended and keeps time, strength and text |
| Cards.Resumed | memorysurfer.c:5216-5247 | resuming acts card by card |
| Cards.SuspendedCount | memorysurfer.c:5216-5247 | at most every card is suspended |
| Cards.ResumedChanges | memorysurfer.c:5216-5247 | resuming changes the list exactly when a card is suspended, and leaves none suspended |
| Cards.ResumedKnown | memorysurfer.c:5216-5247 | resuming keeps every card in a known state |
| Cards.CloseGap | memorysurfer.c:4776-4783 | the `memmove` down removes the card at the gap; the last slot keeps its old card |
| Cards.OpenGap | memorysurfer.c:4698-4703 | the `memmove` up opens a slot at i holding a copy of the card there |
| Cards.CardList.Contents | memorysurfer.c:4693-4694 | the list has `card_a` cards |
| Cards.CardList.constructor | memorysurfer.c:3228-3231 | no cards, no current card, no card marked for moving |
| Cards.CardList.Grow | memorysurfer.c:4695 | `realloc` keeps the cards in a bigger array |
| Cards.CardList.Insert | memorysurfer.c:4683-4722 | `A_INSERT` puts a new card at the current place and moves the rest up; the clock is stored before it is tested, so a failing clock leaves the card that moved up in the current place with time -1 |
| Cards.CardList.Append | memorysurfer.c:4723-4759 | `A_APPEND` adds a new card at the end and makes it current; a failing clock leaves time -1 in the new slot |
| Cards.CardList.DeleteCard | memorysurfer.c:4768-4805 | `A_DELETE_CARD` removes the current card when it is in range, moves the rest down and keeps the current card in range |
| Cards.CardList.Step | memorysurfer.c:4806-4871 | `A_PREVIOUS`/`A_NEXT` clamp the current card into the list |
| Cards.CardList.Search | memorysurfer.c:5035-5102 | `A_SEARCH` ends on the first matching card in the search direction, wrapping around |
| Cards.CardList.Schedule | memorysurfer.c:4872-4888 | `A_SCHEDULE` makes a new or suspended card scheduled and refuses an alarmed or scheduled one |
| Cards.CardList.Proceed | memorysurfer.c:5152-5183 | `A_PROCEED` stamps the card with the time, the strength of the level and the scheduled state |
| Cards.CardList.Suspend | memorysurfer.c:5184-5215 | `A_SUSPEND` suspends the current card, refusing one out of range |
| Cards.CardList.Resume | memorysurfer.c:5216-5247 | `A_RESUME` resumes every suspended card, counts them, and fails when there is none |
| Cards.CardList.MoveCard | memorysurfer.c:4896-4943 | `A_MOVE_CARD` moves the marked card before or behind the current one, a permutation, also when the current card is the marked one; refused exactly when a card is out of the list, `arrange` is neither, or the move is Behind the last card onto itself |
| Cards.CardList.Destination | memorysurfer.c:4907-4916 | accepts exactly the moves that fit, and then the destination slot is in the list |
| Decks.SameLinksForest | memorysurfer.c:4508-4518 | changing only card list, expanded and enabled fields keeps the forest |
| Decks.FirstRef | memorysurfer.c:4462-4473 | the scan finds the first deck in use that links to x, or none |
| Decks.RefFound | memorysurfer.c:4462-4482 | in a forest the scan finds the one link that leads to a deck; none means the top level |
| Decks.RefRank | memorysurfer.c:936-951 | the deck a link starts from ranks below the deck it leads to |
| Decks.Deepest | memorysurfer.c:936-951 | the deepest deck in use among the first k |
| Decks.LeafExists | memorysurfer.c:937-943 | when a deck is in use, the first scan of `ms_open` finds one |
| Decks.Relink | memorysurfer.c:4474-4482 | setting a link changes nothing but that link |
| Decks.Spliced | memorysurfer.c:4345-4393 | splicing keeps the array size |
| Decks.Unspliced | memorysurfer.c:4543-4559 | unlinking keeps the array size |
| Decks.NewDeck | memorysurfer.c:4394-4396 | a created deck is in use with no children |
| Decks.Deleted | memorysurfer.c:4474-4496 | a deleted deck is free |
| Decks.Spread | memorysurfer.c:4345-4393 | ranks spread out to make room for a new deck |
| Decks.SplicedFields | memorysurfer.c:4345-4393 | a splice changes only the new deck, the deck its link starts from, and `n_first` for the top level |
| Decks.SpliceHolds | memorysurfer.c:4345-4393 | after a splice every deck in use is held by its new link |
| Decks.SpliceSiblings | memorysurfer.c:4345-4393 | after a splice the sibling links and `n_first` are recorded |
| Decks.SpliceChildren | memorysurfer.c:4345-4393 | after a splice the child links are recorded |
| Decks.SpliceReferred | memorysurfer.c:4345-4393 | splicing a loose deck puts it back: one link leads to every deck in use |
| Decks.Activated | memorysurfer.c:4394-4396 | the free slot taken is in use, `n_first` unchanged |
| Decks.ActivateFollow | memorysurfer.c:4318-4396 | taking a free slot changes neither where a link leads nor the splice |
| Decks.ActivateReady | memorysurfer.c:4318-4396 | the new deck is loose and ready to be spliced |
| Decks.CreateRanked | memorysurfer.c:4303-4429 | creating a leaf keeps the ranks growing along every link |
| Decks.CreatePreserves | memorysurfer.c:4303-4429 | `A_CREATE_CAT` keeps the decks a forest |
| Decks.DeletedFields | memorysurfer.c:4474-4496 | a delete changes only the deleted deck, the deck that led to it, and `n_first` for the top level |
| Decks.DeleteRanked | memorysurfer.c:4460-4507 | deleting a leaf keeps the ranks growing |
| Decks.DeleteHolds | memorysurfer.c:4460-4507 | after deleting a leaf every deck in use is held by its new link |
| Decks.DeleteSiblings | memorysurfer.c:4460-4507 | after deleting a leaf the sibling links are recorded |
| Decks.DeleteChildren | memorysurfer.c:4460-4507 | after deleting a leaf the child links are recorded |
| Decks.DeletePreserves | memorysurfer.c:4460-4507 | `A_DELETE_CAT` on a leaf keeps the decks a forest |
| Decks.UnsplicedFields | memorysurfer.c:4543-4559 | unlinking changes only the deck the link starts from, and `n_first` for the top level |
| Decks.UnlinkRanked | memorysurfer.c:4543-4559 | taking a deck out keeps the ranks growing |
| Decks.UnlinkHolds | memorysurfer.c:4543-4559 | after taking a deck out, every other deck is held by its new link |
| Decks.UnlinkLinks | memorysurfer.c:4543-4559 | after taking a deck out, its links are recorded and nothing leads to it |
| Decks.UnlinkReferred | memorysurfer.c:4543-4559 | taking a deck out leaves it loose: its link now leads to its next sibling |
| Decks.BelowRank | memorysurfer.c:4521-4540 | a deck in the subtree of m ranks above m |
| Decks.BelowDown | memorysurfer.c:4521-4540 | an edge out of m's subtree, other than m's sibling link, stays inside it |
| Decks.BelowUp | memorysurfer.c:4521-4540 | an edge into m's subtree, other than into m, comes from inside it |
| Decks.MovedRank | memorysurfer.c:4519-4616 | the ranks after a move keep one rank per deck |
| Decks.Moved | memorysurfer.c:4519-4616 | a move keeps the array size |
| Decks.MovedFields | memorysurfer.c:4541-4598 | a move, deck by deck, in terms of the tree before it |
| Decks.MoveRankedNextOf | memorysurfer.c:4561-4598 | the moved deck's sibling link climbs in the new ranks |
| Decks.MoveRankedChildOf | memorysurfer.c:4561-4598 | the moved deck's child link climbs in the new ranks |
| Decks.MoveRankedInside | memorysurfer.c:4561-4598 | the links inside the moved subtree climb in the new ranks |
| Decks.MoveRankedEdge | memorysurfer.c:4561-4598 | an old edge from outside the subtree still climbs |
| Decks.MoveRankedNext | memorysurfer.c:4543-4559 | the old next sibling of the moved deck is outside its subtree |
| Decks.MoveRankedSibling | memorysurfer.c:4561-4598 | sibling links outside the subtree climb in the new ranks |
| Decks.MoveRankedChild | memorysurfer.c:4561-4598 | child links outside the subtree climb in the new ranks |
| Decks.MoveRanked | memorysurfer.c:4519-4616 | moving a deck with its subtree outside that subtree keeps the ranks growing |
| Decks.MovePreserves | memorysurfer.c:4519-4616 | `A_MOVE_CAT` that passes the topology check keeps the decks a forest |
| Decks.LinkTo | memorysurfer.c:4462-4482 | the link the scans find names a slot |
| Decks.LinkToRef | memorysurfer.c:4462-4482 | with one deck loose, the scans find the recorded link of every other deck |
| Decks.Toggled | memorysurfer.c:4510 | toggling flips the expanded flag between 0 and 1 and nothing else |
| Decks.ToggleTwice | memorysurfer.c:4510 | toggling twice restores a 0/1 flag |
| Decks.DeleteOrphans | memorysurfer.c:4443-4459 | deleting a deck with children leaves no forest, which is why only leaves may be deleted |
| Decks.Place | memorysurfer.c:4561-4598 | the place for Before, Below and Behind is a link from a slot or the top level |
| Decks.FirstFree | memorysurfer.c:4318-4320 | the first free slot, `cat_a` when every slot is in use |
| Decks.Grown | memorysurfer.c:4321-4334 | growth adds seven free slots |
| Decks.GrowPreserves | memorysurfer.c:4321-4334 | adding free slots keeps the forest |
| Decks.PlaceBeforeSource | memorysurfer.c:4563-4589 | after m is out, the link to deck cat starts outside m's subtree |
| Decks.PlaceBeforeReady | memorysurfer.c:4563-4589 | Before can splice m back in |
| Decks.PlaceBesideReady | memorysurfer.c:4590-4597 | Below and Behind can splice m back in |
| Decks.CreateLink | memorysurfer.c:4345-4393 | the place `A_CREATE_CAT` picks is a link from a slot or the top level |
| Decks.FirstRefSame | memorysurfer.c:4462-4473 | arrays that link to x at the same slots give the same scan |
| Decks.CreateLinkReady | memorysurfer.c:4309-4393 | the place `A_CREATE_CAT` picks can take a new leaf |
| Decks.SlotIrrelevant | memorysurfer.c:4341-4393 | what a free slot holds changes neither the place picked nor the splice |
| Decks.DeckTree.constructor | memorysurfer.c:922 | before `ms_open`: no decks, `n_first` -1 |
| Decks.DeckTree.Referrer | memorysurfer.c:939-942 | the scan of `ms_open` finds the first deck in use linking to x |
| Decks.DeckTree.FindReferrer | memorysurfer.c:4462-4473 | the scan of the deck actions yields the previous sibling or the parent |
| Decks.DeckTree.Open | memorysurfer.c:916-960 | `ms_open` is refused with 0x052e8351 unless no decks are loaded; otherwise the walk up from -1 finds `n_first` |
| Decks.DeckTree.Toggle | memorysurfer.c:4508-4518 | `A_TOGGLE` flips the expanded flag of one deck |
| Decks.DeckTree.TopologyCheck | memorysurfer.c:4521-4540 | the walk up from cat refuses exactly when cat is mov or lies in its subtree |
| Decks.DeckTree.Delete | memorysurfer.c:4460-4507 | `A_DELETE_CAT` redirects the link to the deck past it and frees its slot |
| Decks.DeckTree.FreeSlot | memorysurfer.c:4318-4320 | the free-slot scan |
| Decks.DeckTree.Grow | memorysurfer.c:4321-4334 | the array grows by seven free slots |
| Decks.DeckTree.Create | memorysurfer.c:4303-4429 | `A_CREATE_CAT` refuses without a name or a valid place; otherwise the new deck takes the first free slot, after growth if needed, spliced Before, Below or Behind deck cat |
| Decks.DeckTree.Attach | memorysurfer.c:4345-4396 | the second half of `A_CREATE_CAT`: refused for an unknown arrangement, otherwise spliced |
| Decks.DeckTree.Arrange | memorysurfer.c:4345-4396 | the switch of `A_CREATE_CAT` splices the new deck where arrange says |
| Decks.DeckTree.Prepare | memorysurfer.c:4341-4344 | the slot gets its card list and the expanded flag, still free |
| Decks.DeckTree.Commit | memorysurfer.c:4394-4396 | the slot is marked in use and the decks are a forest again |
| Decks.DeckTree.SpliceBefore | memorysurfer.c:4347-4371 | Before: the link to cat now leads to n, and n to cat |
| Decks.DeckTree.SpliceBelow | memorysurfer.c:4372-4376 | Below: n becomes cat's first child |
| Decks.DeckTree.SpliceBehind | memorysurfer.c:4377-4381 | Behind: n becomes cat's next sibling |
| Decks.DeckTree.Unlink | memorysurfer.c:4543-4559 | the link to mov now leads past it |
| Decks.DeckTree.Move | memorysurfer.c:4519-4616 | `A_MOVE_CAT` refuses an invalid topology; a move before its own next sibling changes nothing; otherwise the deck and its subtree go to the new place |
| Decks.DeckTree.Rearrange | memorysurfer.c:4541-4598 | the accepted move takes the deck out and splices it in |
| Decks.DeckTree.Relocate | memorysurfer.c:4561-4598 | the loose deck is spliced in where arrange says |
| IndexedMemoryFile.Rotated | imf/indexedmemoryfile.c:232-247 | one insertion step moves entry i to slot h and shifts the entries between up by one |
| IndexedMemoryFile.RotatedPieces | imf/indexedmemoryfile.c:232-247 | the insertion step in pieces |
| IndexedMemoryFile.RotatedEntries | imf/indexedmemoryfile.c:232-247 | an insertion step keeps the order a permutation of slot indices |
| IndexedMemoryFile.InsertionStep | imf/indexedmemoryfile.c:232-247 | inserting entry i into the sorted prefix keeps the entries and sorts one more |
| IndexedMemoryFile.RotatedSorted | imf/indexedmemoryfile.c:232-247 | the rotated prefix is sorted by position |
| IndexedMemoryFile.Iota | imf/indexedmemoryfile.c:359-361 | the identity order |
| IndexedMemoryFile.Span | imf/indexedmemoryfile.c:170-175 | the new order entries of a growth are their own indices |
| IndexedMemoryFile.IotaCount | imf/indexedmemoryfile.c:359-361 | the identity order holds every slot index once |
| IndexedMemoryFile.PermInRange | imf/indexedmemoryfile.c:224-249 | a permutation of the slots names only slots |
| IndexedMemoryFile.PermDistinct | imf/indexedmemoryfile.c:224-249 | a permutation names no slot twice |
| IndexedMemoryFile.PermCovers | imf/indexedmemoryfile.c:224-249 | a permutation names every slot |
| IndexedMemoryFile.EndBeforePos | imf/indexedmemoryfile.c:195-199 | in sorted order a used chunk ends before the next begins |
| IndexedMemoryFile.GapNonNegative | imf/indexedmemoryfile.c:197-199 | `space >= 0`: no two chunks overlap |
| IndexedMemoryFile.GapClear | imf/indexedmemoryfile.c:195-213 | no chunk lies inside a gap |
| IndexedMemoryFile.TableScanReady | imf/indexedmemoryfile.c:195-213 | a table is ready for the gap scan |
| IndexedMemoryFile.LargeUpTo | imf/indexedmemoryfile.c:205-212 | the first gap larger than twice the size among the smallest such |
| IndexedMemoryFile.ChosenUnique | imf/indexedmemoryfile.c:182-222 | the place chosen is unique |
| IndexedMemoryFile.ChosenFree | imf/indexedmemoryfile.c:182-222 | the chunk placed there overlaps no used chunk |
| IndexedMemoryFile.FirstUnused | imf/indexedmemoryfile.c:382-391 | the lowest index with size 0 |
| IndexedMemoryFile.Grown | imf/indexedmemoryfile.c:141-180 | growth by `min(count, 128)` unused slots, keeping the old ones |
| IndexedMemoryFile.GrowTable | imf/indexedmemoryfile.c:141-180 | growth keeps the table sorted and the order a permutation |
| IndexedMemoryFile.Replace | imf/indexedmemoryfile.c:473-482 | writing a chunk clear of the others keeps the layout |
| IndexedMemoryFile.Relocated | imf/indexedmemoryfile.c:464-482 | after a put the slot holds the new extent |
| IndexedMemoryFile.GrowLayout | imf/indexedmemoryfile.c:394-397 | growth keeps the layout |
| IndexedMemoryFile.RelocateLayout | imf/indexedmemoryfile.c:464-482 | a put keeps the layout |
| IndexedMemoryFile.MoveLayout | imf/indexedmemoryfile.c:473-482 | moving the old extent to a free slot and the new one to index keeps the layout |
| IndexedMemoryFile.RelocateMarked | imf/indexedmemoryfile.c:464-482 | after a put every marked slot is in use |
| IndexedMemoryFile.Freed | imf/indexedmemoryfile.c:538-543 | after commit every marked slot is unused and the others unchanged |
| IndexedMemoryFile.FreedStep | imf/indexedmemoryfile.c:538-543 | one commit round frees one marked slot |
| IndexedMemoryFile.SyncLayout | imf/indexedmemoryfile.c:531-546 | placing chunk 1 and freeing the marks keeps the layout |
| IndexedMemoryFile.MaxEnd | imf/indexedmemoryfile.c:589-613 | the largest end of a used chunk |
| IndexedMemoryFile.LastUsedEnd | imf/indexedmemoryfile.c:599-610 | the last used chunk in sorted order ends the file |
| IndexedMemoryFile.Displacement | imf/indexedmemoryfile.c:636-641 | the sum of distances is non-negative |
| IndexedMemoryFile.SumConcat | imf/indexedmemoryfile.c:636-641 | sums split at a concatenation |
| IndexedMemoryFile.SumMultiset | imf/indexedmemoryfile.c:636-641 | the sum depends only on the entries |
| IndexedMemoryFile.DisplacementReach | imf/indexedmemoryfile.c:636-642 | the sum of distances is twice a whole number less two sums |
| IndexedMemoryFile.DisplacementEven | imf/indexedmemoryfile.c:642 | the sum of distances of a permutation is even, as asserted |
| IndexedMemoryFile.IotaDisplacement | imf/indexedmemoryfile.c:629-644 | the identity order displaces nothing |
| IndexedMemoryFile.FirstAtEnd | imf/indexedmemoryfile.c:667-671 | the gap scan stops at the first unused chunk |
| IndexedMemoryFile.GapTiling | imf/indexedmemoryfile.c:667-710 | gaps and chunks tile the file up to the scan point |
| IndexedMemoryFile.GapCountSpace | imf/indexedmemoryfile.c:667-710 | there are no more gaps than bytes of gap, and none exactly when no space is lost |
| IndexedMemoryFile.GapsFillFile | imf/indexedmemoryfile.c:664-710 | gaps plus chunks fill the file |
| IndexedMemoryFile.ScanStops | imf/indexedmemoryfile.c:667-671 | the chunks the scan skips are the unused ones |
| IndexedMemoryFile.ChunkTable.Open | imf/indexedmemoryfile.c:355-362 | the loaded chunks with the identity order, then sorted |
| IndexedMemoryFile.ChunkTable.SortOrder | imf/indexedmemoryfile.c:224-249 | `imf_sort_order` leaves the order a permutation sorted by position |
| IndexedMemoryFile.ChunkTable.InsertEntry | imf/indexedmemoryfile.c:233-245 | one outer round sorts one more entry and keeps the entries |
| IndexedMemoryFile.ChunkTable.FindSpace | imf/indexedmemoryfile.c:182-222 | `imf_find_space` fails exactly when no gap fits; otherwise it picks the first exact gap, else the smallest gap over twice the size |
| IndexedMemoryFile.ChunkTable.AllocChunks | imf/indexedmemoryfile.c:141-180 | `imf_alloc_chunks` adds unused slots with identity order entries |
| IndexedMemoryFile.ChunkTable.SeekUnused | imf/indexedmemoryfile.c:376-399 | the lowest unused slot; growth when it is the last |
| IndexedMemoryFile.ChunkTable.GetLength | imf/indexedmemoryfile.c:589-613 | `imf_get_length` is the end of the last used chunk |
| IndexedMemoryFile.ChunkTable.InfoSwaps | imf/indexedmemoryfile.c:629-644 | `stat_swap` is half the sum of distances |
| IndexedMemoryFile.ChunkTable.InfoGaps | imf/indexedmemoryfile.c:646-711 | the count and the total space of the gaps before the unused chunks |
| IndexedMemoryFile.ChunkTable.GetSize | imf/indexedmemoryfile.c:401-407 | the data size is the chunk size less the 20-byte hash |
| IndexedMemoryFile.ChunkTable.Free | imf/indexedmemoryfile.c:433-438 | `imf_free` appends the index to the marks |
| IndexedMemoryFile.ChunkTable.Delete | imf/indexedmemoryfile.c:420-447 | `imf_delete` appends the index to the marks |
| IndexedMemoryFile.ChunkTable.Put | imf/indexedmemoryfile.c:450-488 | `imf_put` fails exactly when no space fits; otherwise the slot holds the data plus hash at the chosen place and the old extent is marked |
| IndexedMemoryFile.ChunkTable.Place | imf/indexedmemoryfile.c:464-484 | the chunk-table part of a put |
| IndexedMemoryFile.ChunkTable.Release | imf/indexedmemoryfile.c:531-546 | chunk 1 is placed, the marks freed and the order sorted |
| IndexedMemoryFile.ChunkTable.CommitDeletes | imf/indexedmemoryfile.c:536-545 | every marked slot becomes unused; the marks are emptied |
| IndexedMemoryFile.ChunkTable.Sync | imf/indexedmemoryfile.c:490-561 | `imf_sync` fails exactly when no space fits the index; otherwise chunk 1 is placed and the deletes committed |
| Sha1.RotL | imf/sha1.c:53-54 | the circular shift `SHA1CircularShift`: the high 32 - n bits of the result are the low bits of the word and its low n bits are the word's high n bits |
| Sha1.BigEndian | imf/sha1.c:312-315 | a word is four bytes |
| Sha1.BigEndianInt | imf/sha1.c:269-276 | a length word is four bytes |
| Sha1.Schedule | imf/sha1.c:107-120 | the schedule has 80 words |
| Sha1.Compress | imf/sha1.c:94-174 | one block compresses to five words |
| Sha1.HashBlocks | imf/sha1.c:94-174 | hashing whole blocks gives five words |
| Sha1.Zeros | imf/sha1.c:242-264 | zero padding |
| Sha1.LengthField | imf/sha1.c:269-276 | the 64-bit length is eight bytes |
| Sha1.Pad | imf/sha1.c:234-279 | padding fills whole blocks and adds 1 to 72 bytes |
| Sha1.PadLength | imf/sha1.c:234-279 | the padded length is a multiple of 64 |
| Sha1.Digest | imf/sha1.c:312-315 | a digest is 20 bytes |
| Sha1.Sha1 | imf/sha1.c:22-31 | SHA-1 of a message is 20 bytes |
| Sha1.PadShape | imf/sha1.c:234-279 | padding is the message, 0x80, zeros and the big-endian bit length |
| Sha1.BigEndianAt | imf/sha1.c:312-315 | byte j of a word is byte 3 - j of it |
| Sha1.DigestAt | imf/sha1.c:312-315 | digest byte 4q + j is byte 3 - j of word q |
| Sha1.CompressFromRounds | imf/sha1.c:167-171 | compression adds the registers to the hash words |
| Sha1.HashBlocksAppend | imf/sha1.c:94-174 | hashing one more block compresses it |
| Sha1.CounterStep | imf/sha1.c:201-206 | the two length words count the bits with carry, wrapping only at 2^61 bytes |
| Sha1.ZerosExtend | imf/sha1.c:242-264 | zero padding grows by one zero |
| Sha1.PadOneBlock | imf/sha1.c:257-276 | one-block padding is the padding |
| Sha1.PadTwoBlocks | imf/sha1.c:242-276 | two-block padding is the padding |
| Sha1.InputStep | imf/sha1.c:199-210 | storing a byte keeps the buffered bytes and the counters |
| Sha1.FullBlock | imf/sha1.c:207-210 | a full block hashes the message so far |
| Sha1.InputByteInv | imf/sha1.c:197-212 | one input byte keeps the context invariant |
| Sha1.BlockPosition | imf/sha1.c:199-210 | the block index is the message length modulo 64 |
| Sha1.StoreByte | imf/sha1.c:199 | storing a byte extends the buffered block |
| Sha1.LengthFieldWords | imf/sha1.c:269-276 | the length field is the high word then the low word |
| Sha1.PadLast | imf/sha1.c:269-278 | the last block completes the padded hash |
| Sha1.PadMessageHash | imf/sha1.c:234-279 | padding and processing give the hash of the padded message |
| Sha1.PadOneHash | imf/sha1.c:257-279 | the same when at most 55 bytes are buffered |
| Sha1.PadTwoHash | imf/sha1.c:242-279 | the same when more than 55 bytes are buffered |
| Sha1.Sha1Context.constructor | imf/sha1.c:65-82 | a fresh context, reset |
| Sha1.Sha1Context.Reset | imf/sha1.c:65-82 | `sha1_reset` sets the initial hash words and zeroes the counters and the index |
| Sha1.Sha1Context.MessageSchedule | imf/sha1.c:107-120 | the 80 words: big-endian block words, then rotated XORs |
| Sha1.Sha1Context.CompressionLoop | imf/sha1.c:121-166 | the 80 rounds with Ch, Parity, Maj, Parity and K0 to K3 |
| Sha1.Sha1Context.ProcessMessageBlock | imf/sha1.c:94-174 | `SHA1ProcessMessageBlock` compresses the block into the hash and resets the index |
| Sha1.Sha1Context.AddWords | imf/sha1.c:167-171 | the registers are added to the hash words |
| Sha1.Sha1Context.Input | imf/sha1.c:190-215 | `sha1_input` appends the bytes, failing exactly when the message reaches 2^61 bytes |
| Sha1.Sha1Context.InputByte | imf/sha1.c:197-212 | one byte stored, counted and, on a full block, processed |
| Sha1.Sha1Context.CountBits | imf/sha1.c:201-206 | eight more bits with carry; an error when both words wrap |
| Sha1.Sha1Context.PadMessage | imf/sha1.c:234-279 | `SHA1PadMessage` leaves the hash of the padded message, with no byte buffered |
| Sha1.Sha1Context.PadBeforeLength | imf/sha1.c:242-264 | 0x80 and zeros up to byte 56, through an extra block when more than 55 bytes are buffered |
| Sha1.Sha1Context.ZeroFill | imf/sha1.c:248-263 | the zero-filling loops |
| Sha1.Sha1Context.StoreLength | imf/sha1.c:269-276 | the length is stored big-endian in the last eight bytes |
| Sha1.Sha1Context.Result | imf/sha1.c:294-318 | `sha1_result` writes the SHA-1 digest of everything input, clears the block and the counters, and leaves the final hash words with no byte buffered |
| Sha1.Sha1Context.ClearBlock | imf/sha1.c:304-307 | the block is zeroed |
| Sha1.Sha1Context.WriteDigest | imf/sha1.c:312-315 | the digest is the hash words big-endian |

## Left out

- File I/O of the indexed memory file: `imf_read`, `imf_write`, `fsync`, the file descriptor and the checksums are left out. Only the chunk table is modelled.
- `imf_open` beyond its order set-up, `imf_create`, `imf_get`, `imf_close` and `imf_truncate` are not part of this model; `IndexedMemoryFile.ChunkTable.Open` takes the loaded chunks as a parameter.
- Allocation never fails: the NULL results of `malloc` and `realloc` are not modelled.
- IndexedMemoryFile.ChunkTable.Put: requires 1 < index < count - 1 and a non-negative size; the source asserts only `index > 1`, and the ending chunk makes index < count - 1 hold for the callers.
- IndexedMemoryFile.ChunkTable.Sync: the compaction loop of `imf_sync` (imf/indexedmemoryfile.c:503-527) is left out. On the table it re-puts the first chunk whose following gap is positive but smaller than the chunk, with the chunk's own size; the model's `Sync` does not make that relocation, so the chunk positions it states are those before compaction.
- IndexedMemoryFile.ChunkTable.AllocChunks: the 32-bit size bound the source asserts is modelled as a limit on the slot count, not as overflow.
- int32 and int64 overflow is not modelled, including `lg_chunk_size` being 32-bit where `space` is 64-bit.
- IndexedMemoryFile.ChunkTable.InfoGaps: the gap-size histogram and its text, and its allocation failure, are left out; only the count and the total space are modelled.
- IndexedMemoryFile.ChunkTable.SortOrder: does not state that an order that is already sorted stays unchanged.
- IndexedMemoryFile.ChunkTable.GetLength: the status is always 0, because the table is never empty.
- IndexedMemoryFile.ChunkTable.Delete: requires index > 0, since chunk 0 is the file header.
- Decks: deck names are not stored; `A_CREATE_CAT` only checks that a name is given.
- Decks.DeckTree.Open: requires the loaded decks to form a forest, so the 0x02d3171a corruption error is not reached.
- Decks.DeckTree.Delete: requires a leaf, as `A_ASK_DELETE_CAT` checks; the card deletions and `ms_load_card_list` of `A_DELETE_CAT` are left out.
- Decks.Grown: the slots `realloc` adds are undefined in the source; the model sets them to a free deck.
- The walks over deck links are bounded by the rank; the source would loop forever on a cycle.
- Decks.DeckTree.Delete, Decks.DeckTree.Create and Decks.DeckTree.Move: the selection updates the source makes after a successful store (`cat_i` set to -1 after delete, to the new slot after create, to the moved deck `mov_cat_i` after move) are left out with the store itself.
- Storage of decks and cards in the file (`imf_put`, `imf_sync`, `ms_get_card_sa`, `ms_modify_qa`) is left out of the deck and card actions.
- `ms_determine_card` (floating point and time) is left out.
- Cards.CardList.Insert: `time(NULL)` is the parameter `now`.
- Cards.CardList.Append: on a failing clock only the time of the new slot is stated; its other fields are whatever `realloc` left there.
- XmlText.XmlUnescape: on a bad reference the source returns the raw `memcmp` result, which may be negative; the model states only `e == 0` versus `e != 0`, and leaves the buffer unstated on failure.
- Sha1.Sha1Context.Input: nothing is stated after an input that reaches 2^61 bytes; the source then returns an error with both counters wrapped to 0 and the context still usable, but the model's context describes only messages shorter than 2^61 bytes.
- Sha1.Sha1Context.Result: the NULL pointer checks of `sha1_result` and `sha1_input` are left out.
- XmlText.XmlEscape: the NULL checks of `xml_str_ptr` and `xml_n_ptr` (failure 1) are left out; the buffer and its size are always given, as at every caller.
- StringArrays.StringArray: the capacity `sa_n` is not modelled, except that `sa_load` only grows the buffer.
- TextRoutines.StrToLower: the 256-entry table is modelled by the rule it encodes: `A` to `Z` become `a` to `z`.
- The CGI input and output, HTML and XML generation, `ms.js`, the stopwatch, the token check and all other actions are not part of this model.

## Findings

| source | as written | input that shows it | evidently intended | confidence | as-written member | corrected member |
|---|---|---|---|---|---|---|
| memorysurfer.c:313-320 | `%0D` not followed by `%0A` writes nothing but still advances the write position, leaving a stale byte in the output | `%41%0D&` with len 6 decodes to `A40D` with success | a carriage return alone is a control byte and is refused with 1 | not executed | PercentCodec.LoneCarriageReturn | PercentCodec.Percent2c |
| memorysurfer.c:4908-4927 | Behind with the current card and the moved card both last gives slot `card_a`, one past the end of `card_l` | `card_a` = 2, `card_i` = `mov_card_i` = 1, arrange 2 | the destination stays inside the list: the move is refused in exactly this case, while Before onto itself and Behind a card other than the last onto itself still succeed as written | not executed | Cards.MoveBehindItself | Cards.CardList.Destination |
