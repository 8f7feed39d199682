# ntojs JSON reader — a verified model

ntojs reads JSON text into a tree of three kinds of .NET objects: strings,
`JsonArray` (a list that only grows at its end) and `JsonObject` (a
dictionary with unique string keys), with `null` for JSON null. The reader,
`JsonReader`, is a hand-written recursive-descent parser over a string. It
keeps four pieces of state: a cursor into the text, a one-token lookahead
buffer, the index of the last error and a string builder. On most
unexpected input it does not stop: it records the cursor position as the
error index and returns what it has built so far. Two inputs make it throw
(an index past the end in the number reader, when a number token is the
last character, and `Dictionary.Add` on a repeated key in an object), and
one makes it loop forever (see below).
Beyond those, its value, array and object readers call one another once
per level of nesting, so deeply nested text can exhaust the .NET stack;
the model has no such limit (see "## Left out"). Booleans and numbers are
returned as text.

This project models that reader and the two containers in Dafny, in five
modules:

- `Chars` (`chars.dfy`): UTF-16 code units (`Unit`), the reader's character
  constants (src/ntojs/JsonReader.cs:64-95), the base-16 fold the `\uXXXX`
  decoder performs, and the character classes the reader tests:
  `IsWhiteSpace` (src/ntojs/JsonReader.cs:308), `IsNumberStart` (the number
  cases of src/ntojs/JsonReader.cs:186-204), `IsNumberChar`
  (src/ntojs/JsonReader.cs:388) and `IsHexDigit`
  (src/ntojs/JsonReader.cs:578-583).
- `Scanner` (`scanner.dfy`): the tokenizer as pure functions over a `Cursor`
  (index, lookahead token, error index). It covers whitespace skipping,
  token classification, `Peek`, `ReadToken`, `Flush` and `OnError`.
  `StartsToken` collects the cases of the tokenizer's switch that yield a
  token (src/ntojs/JsonReader.cs:181-254).
- `ReaderSpec` (`reader_spec.dfy`): the readers for numbers, strings,
  values, arrays and objects as pure functions. They yield a pure `Tree`
  and the cursor after the read. `Outcome` names the two ways the source
  fails to return: `Crash` for an exception, `Hang` for a loop that never
  exits. The lemmas about what the reader accepts and returns live here.
- `Containers` (`containers.dfy`): `JsonArray` and `JsonObject` as classes
  whose methods reassign their one field, plus `JsonObject`'s typed getters.
  `HasShape` is the `as T` test of src/ntojs/JsonObject.cs:48 and
  src/ntojs/JsonObject.cs:98: a stored null has no type.
- `Reader` (`reader.dfy`): the class `JsonReader`. Its fields are the source's
  fields and its methods are the source's loops. Each method is proved to
  leave the state, and return the result, that the matching `Scanner` or
  `ReaderSpec` function gives. The objects a method builds are tied to the
  pure `Tree` by `Denotes`: every array and object in the result is fresh,
  its contents denote the tree's contents, and no array or object stands at
  two positions of the tree, so adding to one nested container never changes
  another.

Where the reader's behaviour differs from a plain reading of JSON, the model
follows the code:

- The last error wins. Every error overwrites the error index with the
  current cursor.
- Empty (non-null) input reads as null and records no error, so `HasError`
  is false for it.
- An unterminated string loses its last character: `"abc` reads as `ab`.
- `{"a":}` reads as an object mapping `a` to null. The error is recorded at
  index 6, the end of the text, so it reports as an end-of-input error.
- A number that ends exactly at the end of the text is read normally, with
  an error at the end of the text. A number token that is itself the last
  character (`5` alone) makes the number reader index past the end; the
  model returns `Crash` there.
- An array reader facing the end of the text or an unknown character never
  exits its loop. The model returns `Hang` there. `ArrayStalls` proves that
  one turn of the loop from that point returns the reader to the same
  cursor. Each such turn also appends one more null to the array, so the
  source's list grows without bound.
- A key that repeats within an object makes `Dictionary.Add` throw; the
  model returns `Crash`.

## Model

| member | source | states |
|---|---|---|
| Chars.HexDigitValue | src/ntojs/JsonReader.cs:578-583 | a hexadecimal digit of either letter case has its base-16 value, below 16 |
| Chars.HexShift | src/ntojs/JsonReader.cs:578-583 | one decoding step: a digit gives sixteen times the total plus the digit's value; any other character leaves the total alone |
| Chars.HexFold | src/ntojs/JsonReader.cs:571-584 | folding k characters gives a value below 16^k |
| Chars.HexFoldSnoc | src/ntojs/JsonReader.cs:574-584 | folding one more character is one more decoding step |
| Chars.HexQuad | src/ntojs/JsonReader.cs:513 | the value decoded from a four-character escape fits in one code unit |
| Chars.HexFoldOfFour | src/ntojs/JsonReader.cs:569-586 | on four characters the general fold equals the four-step decoder |
| Chars.HexQuadOfDigits | src/ntojs/JsonReader.cs:578-583 | four hexadecimal digits decode to 4096·d1 + 256·d2 + 16·d3 + d4 |
| Scanner.SkipWs | src/ntojs/JsonReader.cs:302-314 | whitespace skipping never moves backwards and never leaves the text |
| Scanner.SkipWsStops | src/ntojs/JsonReader.cs:302-314 | every skipped character is whitespace, and the stop is the end of the text or a non-whitespace character |
| Scanner.SkipWsIdempotent | src/ntojs/JsonReader.cs:302-314 | skipping from where skipping stopped does not move |
| Scanner.ScanToken | src/ntojs/JsonReader.cs:173-257 | a token is never `None` and stays within the text; `End`/`Unknown` stop after the whitespace, and every other token consumes at least one character |
| Scanner.ScanTokenClassifies | src/ntojs/JsonReader.cs:175-256 | `End` exactly when only whitespace is left; each punctuation, quote and number token exactly when its character follows the whitespace, consuming that one character; a literal exactly when all its letters are present, consuming the whole word; `Unknown` exactly on a character that starts no token, staying on it |
| Scanner.ScanFromSkipped | src/ntojs/JsonReader.cs:175 | the scan depends only on where whitespace skipping stops |
| Scanner.Flush | src/ntojs/JsonReader.cs:136-139 | flushing only empties the lookahead buffer |
| Scanner.OnError | src/ntojs/JsonReader.cs:610-614 | an error sets the error index to the cursor and changes nothing else |
| Scanner.Peek | src/ntojs/JsonReader.cs:146-154 | a buffered token is returned with nothing moved; otherwise the scanned token is buffered and the cursor moves past it |
| Scanner.ReadToken | src/ntojs/JsonReader.cs:159-168 | the result is never `None`, the buffer ends empty and the error index is untouched |
| Scanner.PeekIsIdempotent | src/ntojs/JsonReader.cs:146-154 | a second peek returns the same token and moves nothing |
| Scanner.ReadAfterPeek | src/ntojs/JsonReader.cs:159-168 | reading after a peek returns the peeked token, empties the buffer, leaves the index alone, and returns what a read without the peek would |
| Scanner.StallRepeats | src/ntojs/JsonReader.cs:175-256 | after a peek that gave `End` or `Unknown`, flushing and peeking again gives the same token at the same index |
| ReaderSpec.NumberEnd | src/ntojs/JsonReader.cs:384-398 | the end of the number run is within the text and not before its start |
| ReaderSpec.NumberEndStops | src/ntojs/JsonReader.cs:384-398 | the run holds only digits, `.`, `-`, `+`, `e`, `E`, and stops on the first other character or the end |
| ReaderSpec.ReadNumber | src/ntojs/JsonReader.cs:376-401 | the number reader throws exactly when entered at the end of the text |
| ReaderSpec.ReadNumberTakesNumberChars | src/ntojs/JsonReader.cs:376-401 | the result is the token's character plus the whole number run after it; the error index moves to the end exactly when the run reaches the end |
| ReaderSpec.Unescape | src/ntojs/JsonReader.cs:481-507 | exactly the eight escape letters of RFC 8259 section 7 other than `u` stand for one character; any other letter stands for nothing |
| ReaderSpec.ScanString | src/ntojs/JsonReader.cs:447-519 | decoding a string body stays within the text, and an unclosed body runs to the end |
| ReaderSpec.EscapePiece | src/ntojs/JsonReader.cs:480-517 | an escape yields at most one character: `\u` with four characters after it yields their decoded value, a short `\u` yields nothing and consumes only the `u`, and every other letter yields what `Unescape` says |
| ReaderSpec.ScanEscape | src/ntojs/JsonReader.cs:475-517 | decoding after a backslash stays within the text, and an unclosed body runs to the end |
| ReaderSpec.ReadString | src/ntojs/JsonReader.cs:442-534 | the string reader moves only forward, keeps the lookahead, and either leaves the error index alone or sets it to the end of the text |
| ReaderSpec.PlainStringIsVerbatim | src/ntojs/JsonReader.cs:447-464 | a quote-terminated run with no backslash reads as exactly the characters between the quotes, leaving the cursor past the closing quote |
| ReaderSpec.PlainRunScan | src/ntojs/JsonReader.cs:447-464 | a plain run up to a quote decodes verbatim and closes |
| ReaderSpec.UnclosedPlainStringDropsLast | src/ntojs/JsonReader.cs:520-531 | an unclosed plain string reads as all but its last character, with the error at the end of the text |
| ReaderSpec.UnclosedRunScan | src/ntojs/JsonReader.cs:447-476 | a plain run to the end decodes verbatim, unclosed, with a pending raw tail |
| ReaderSpec.EscapeDecodesToOneUnit | src/ntojs/JsonReader.cs:480-507 | each of `\"` `\\` `\/` `\b` `\f` `\n` `\r` `\t` decodes to its one character (the quote, backslash and slash to themselves; backspace, form feed, newline, carriage return and tab for the letters), and decoding continues after it |
| ReaderSpec.UnicodeEscapeDecodes | src/ntojs/JsonReader.cs:509-515 | `\u` with four hexadecimal digits, either letter case, decodes to the one code unit of their base-16 value |
| ReaderSpec.ShortUnicodeEscapeIsDropped | src/ntojs/JsonReader.cs:510-511 | with fewer than four characters after `\u`, the escape adds nothing and the rest decodes as text |
| ReaderSpec.ParseValue | src/ntojs/JsonReader.cs:536-567 | reading a value never moves backwards and ends with an empty buffer; the error index is unchanged or at a position reached |
| ReaderSpec.ParseArray | src/ntojs/JsonReader.cs:348-374 | the array loop never moves backwards and ends with an empty buffer; errors are only recorded at positions reached |
| ReaderSpec.ParseObject | src/ntojs/JsonReader.cs:403-440 | the object loop never moves backwards and ends with an empty buffer; errors are only recorded at positions reached |
| ReaderSpec.ParseObjectKey | src/ntojs/JsonReader.cs:420-433 | the key case of the object loop keeps the same guarantees |
| ReaderSpec.ParseMember | src/ntojs/JsonReader.cs:420-431 | reading a key and its value moves forward past the colon when there is one; without a colon no value is read |
| ReaderSpec.Read | src/ntojs/JsonReader.cs:332-346 | null or empty text, or a first token that is `End` or `Unknown`, yields null without recording an error |
| ReaderSpec.ArrayStalls | src/ntojs/JsonReader.cs:352-373 | when the peeked token is `End` or `Unknown`, one loop turn reads null, records an error and returns to the same cursor, so the loop never exits |
| ReaderSpec.ArrayKeepsOrder | src/ntojs/JsonReader.cs:348-374 | a finished array begins with the elements already read, in order |
| ReaderSpec.ArrayPrefix | src/ntojs/JsonReader.cs:348-374 | the elements already read do not influence the rest of the loop: they end up in front of the elements read from there on, with the same cursor and the same failure |
| ReaderSpec.ArrayElement | src/ntojs/JsonReader.cs:364-371 | a value the loop reads becomes the array's next element, after those before it and before those read from there on |
| ReaderSpec.ObjectKeepsFields | src/ntojs/JsonReader.cs:403-440 | a finished object keeps every field already read |
| ReaderSpec.ObjectFromToken | src/ntojs/JsonReader.cs:409-437 | one object turn by its token: a comma is skipped; `}` returns the fields so far with the error index untouched; a key without a colon records an error where the reader stopped and returns the fields so far; a new key with its value is added before the loop goes on; any other token records an error and returns the fields so far: an unexpected punctuation token is consumed and the error lies just past it, while `End` or an unknown character consumes nothing and the error lies where it stands, at the unknown character or at the end of the text |
| ReaderSpec.RepeatedKeyCrashes | src/ntojs/JsonReader.cs:429-431 | a key already present, with its colon and value, makes the object reader throw |
| ReaderSpec.ErrorIndexNeverDecreases | src/ntojs/JsonReader.cs:610-614 | reading a value never moves the error index backwards nor past the cursor |
| ReaderSpec.ValueFromToken | src/ntojs/JsonReader.cs:536-567 | a value is chosen by its token: the texts "True" and "False", null for `null`, the string reader's text for a string, the number's own text for a number (or an exception at the end of the text), the array and object readers for their tokens, and null with an error for any other token: just past an unexpected punctuation token, which is consumed, and on the unknown character or at the end of the text, which consume nothing |
| ReaderSpec.ValueCursor | src/ntojs/JsonReader.cs:215-247 | a literal value leaves the cursor just past its whole word with no error; an unexpected punctuation character records the error just past itself; an unknown character records it on itself and the end of the text at the end, neither consuming anything |
| ReaderSpec.LoneDigitCrashes | src/ntojs/JsonReader.cs:383-386 | the text `5` makes the number reader index past the end |
| ReaderSpec.UnclosedStringExample | src/ntojs/JsonReader.cs:520-531 | `"abc` reads as `ab`, with the error at index 4 |
| ReaderSpec.TrueExample | src/ntojs/JsonReader.cs:550-551 | `true` reads as the text "True" with no error |
| ReaderSpec.UnexpectedTokenExample | src/ntojs/JsonReader.cs:565-566 | `]` alone reads as null with the error at index 1 |
| ReaderSpec.ArrayExample | src/ntojs/JsonReader.cs:348-374 | `["a",null]` reads as the array of the text `a` and null, in that order, with no error |
| ReaderSpec.NumberArrayExample | src/ntojs/JsonReader.cs:376-401 | `[12,3]` reads as the array of the texts `12` and `3`, with no error |
| ReaderSpec.UnknownValueExample | src/ntojs/JsonReader.cs:255-256 | an unknown character read as a value consumes nothing: `x` gives null with the error on the `x`, at index 0 |
| ReaderSpec.UnknownInObjectExample | src/ntojs/JsonReader.cs:435-437 | `{x}` gives the empty object with the error on the `x`, at index 1 |
| ReaderSpec.OpenArrayHangs | src/ntojs/JsonReader.cs:352-373 | `[` alone never finishes |
| ReaderSpec.MissingValueExample | src/ntojs/JsonReader.cs:420-433 | `{"a":}` reads as `{a: null}` with the last error at index 6, the end of the text |
| ReaderSpec.ObjectExample | src/ntojs/JsonReader.cs:403-440 | `{"a":"b","c":null}` reads as the object mapping `a` to the text `b` and `c` to null, closed by `}` with no error |
| ReaderSpec.ObjectExampleRest | src/ntojs/JsonReader.cs:409-433 | after the first field of that text, the comma, the second field and `}` complete the object |
| ReaderSpec.MissingColonExample | src/ntojs/JsonReader.cs:423-427 | `{"a" 1}` reads as the empty object with the error at index 6, just past the token found instead of the colon |
| Containers.As | src/ntojs/JsonObject.cs:48 | a cast gives the value itself when it has the shape, null otherwise |
| Containers.JsonArray.constructor | src/ntojs/JsonArray.cs:16 | a new array is empty |
| Containers.JsonArray.Add | src/ntojs/JsonArray.cs:18-22 | the value, null included, becomes the new last element; the length grows by one; earlier elements keep their order; the result is the same array |
| Containers.JsonArray.Elements | src/ntojs/JsonArray.cs:26-34 | enumeration yields exactly the elements, in insertion order |
| Containers.ValuesOf | src/ntojs/JsonObject.cs:30 | a map's values: as many as there are keys, each stored value as often as there are keys holding it, and nothing else |
| Containers.JsonObject.constructor | src/ntojs/JsonObject.cs:20 | a new object is empty |
| Containers.JsonObject.Add | src/ntojs/JsonObject.cs:22-26 | a new key maps to the value and nothing else changes; a present key fails and changes nothing; the result is the same object |
| Containers.JsonObject.Keys | src/ntojs/JsonObject.cs:28 | the keys are exactly the stored keys |
| Containers.JsonObject.Values | src/ntojs/JsonObject.cs:30 | each stored value as often as there are keys holding it, and nothing else |
| Containers.JsonObject.Enumerate | src/ntojs/JsonObject.cs:126-129 | enumeration yields the values, not the keys: each as often as there are keys holding it, in no promised order |
| Containers.JsonObject.Item | src/ntojs/JsonObject.cs:34 | the getter gives the stored value, and fails exactly when the key is absent |
| Containers.JsonObject.SetItem | src/ntojs/JsonObject.cs:35 | the setter inserts or replaces, never fails, and leaves other keys alone |
| Containers.JsonObject.Get | src/ntojs/JsonObject.cs:40-53 | as written: the default for an absent key and also for a stored value of the requested type; null for a stored value of another type |
| Containers.JsonObject.GetIntended | src/ntojs/JsonObject.cs:40-53 | as intended: the stored value when it has the requested type, the default otherwise |
| Containers.JsonObject.GetIsInverted | src/ntojs/JsonObject.cs:48-52 | when the key holds a value of the requested type that differs from the default, `Get` returns the default, unlike `GetIntended`, which agrees with `TryGet` |
| Containers.JsonObject.GetGraph | src/ntojs/JsonObject.cs:55-63 | `Get` at `JsonObject`, with a null default for the one-argument overload |
| Containers.JsonObject.GetList | src/ntojs/JsonObject.cs:65-73 | `Get` at `JsonArray`, with a null default for the one-argument overload |
| Containers.JsonObject.GetString | src/ntojs/JsonObject.cs:75-83 | `Get` at string, with a null default for the one-argument overload |
| Containers.JsonObject.TryGet | src/ntojs/JsonObject.cs:89-100 | an absent key gives false and null; a present key gives the value cast to the type, and true exactly when it has that type, so a stored null gives false |
| Containers.JsonObject.TryGetString | src/ntojs/JsonObject.cs:102-105 | true with the text exactly when the key holds a string |
| Containers.JsonObject.TryGetList | src/ntojs/JsonObject.cs:107-110 | true with the array exactly when the key holds a `JsonArray` |
| Containers.JsonObject.TryGetGraph | src/ntojs/JsonObject.cs:112-115 | true with the object exactly when the key holds a `JsonObject` |
| Containers.JsonObject.TryGetValue | src/ntojs/JsonObject.cs:117-120 | plain lookup: true with the stored value exactly when the key is present, else false and null |
| Reader.Parts | src/ntojs/JsonReader.cs:350 | the containers standing at the positions of a tree lie in its footprint |
| Reader.PartsGrow | src/ntojs/JsonReader.cs:350 | a larger footprint finds the same containers in a denoting value |
| Reader.DenotesGrow | src/ntojs/JsonReader.cs:370 | a built value keeps denoting its tree when more objects are allocated around it |
| Reader.ElementsAreDistinct | src/ntojs/JsonReader.cs:350 | in a denoting array the elements that are containers are distinct objects, none of them the array itself, since each `[` makes a new array |
| Reader.FieldsAreDistinct | src/ntojs/JsonReader.cs:405 | in a denoting object the values that are containers are distinct objects, none of them the object itself, since each `{` makes a new object |
| Reader.ContainerIsPart | src/ntojs/JsonReader.cs:350 | a denoting container is among the containers of its own tree |
| Reader.SharedArrayDoesNotDenote | src/ntojs/JsonReader.cs:350 | one array added twice to another does not denote an array of two arrays |
| Reader.AppendDenotes | src/ntojs/JsonReader.cs:370 | appending a value that denotes a tree, over containers none of the earlier elements use, extends the element correspondence by that tree |
| Reader.InsertDenotes | src/ntojs/JsonReader.cs:431 | adding a key whose value denotes a tree, over containers none of the other values use, extends the field correspondence by that key |
| Reader.DecodeStep | src/ntojs/JsonReader.cs:578-583 | one decoding step in 32-bit unsigned arithmetic equals the exact fold reduced modulo 2^32 |
| Reader.Narrow | src/ntojs/JsonReader.cs:585 | narrowing the 32-bit total to a `char` keeps the fold modulo 2^16 |
| Reader.UnicodeEscapeStep | src/ntojs/JsonReader.cs:509-515 | the decoded code unit and the cursor past four characters are what `EscapePiece` gives |
| Reader.JsonReader.constructor | src/ntojs/JsonReader.cs:46-55 | a reader starts at index 0 with nothing buffered and no error; a null text reads as empty and is flagged |
| Reader.JsonReader.Flush | src/ntojs/JsonReader.cs:136-139 | the new state is `Scanner.Flush` of the old |
| Reader.JsonReader.Peek | src/ntojs/JsonReader.cs:146-154 | token and new state are `Scanner.Peek` of the old state |
| Reader.JsonReader.ReadToken | src/ntojs/JsonReader.cs:159-168 | token and new state are `Scanner.ReadToken` of the old state |
| Reader.JsonReader.ReadTokenCore | src/ntojs/JsonReader.cs:173-257 | token and new index are `Scanner.ScanToken` from the old index |
| Reader.JsonReader.SkipWhiteSpace | src/ntojs/JsonReader.cs:302-314 | the result is the least index at or after the start that is the end or a non-whitespace character |
| Reader.JsonReader.QueueCount | src/ntojs/JsonReader.cs:327-330 | the count of characters after the cursor, never negative |
| Reader.JsonReader.Read | src/ntojs/JsonReader.cs:332-346 | the result and new state are `ReaderSpec.Read`'s, with the built objects denoting its tree, each container fresh and at one position only |
| Reader.JsonReader.ReadArray | src/ntojs/JsonReader.cs:348-374 | the result and new state are `ReaderSpec.ParseArray`'s; the array is fresh and its elements denote the trees, in order, with no container shared between elements or with the array |
| Reader.JsonReader.ReadArrayTurn | src/ntojs/JsonReader.cs:352-373 | a turn that goes on moves the cursor forward and resumes the same array result; a turn that stops yields that result |
| Reader.JsonReader.FinishArray | src/ntojs/JsonReader.cs:360-362 | a finished array with its elements denotes the tree of its elements |
| Reader.JsonReader.ReadElement | src/ntojs/JsonReader.cs:370 | reads a value as `ParseValue` does and appends it; on success the element trees grow by its tree |
| Reader.JsonReader.ReadNumber | src/ntojs/JsonReader.cs:376-401 | result and new state are `ReaderSpec.ReadNumber`'s |
| Reader.JsonReader.ReadObject | src/ntojs/JsonReader.cs:403-440 | the result and new state are `ReaderSpec.ParseObject`'s; the object is fresh and its entries denote the fields, with no container shared between values or with the object |
| Reader.JsonReader.ReadObjectTurn | src/ntojs/JsonReader.cs:409-438 | a turn that goes on moves the cursor forward and resumes the same object result; a turn that stops yields that result |
| Reader.JsonReader.ReadMember | src/ntojs/JsonReader.cs:420-433 | the key case agrees with `ParseMember`; a repeated key throws; a new key is added with its value |
| Reader.JsonReader.ReadMemberValue | src/ntojs/JsonReader.cs:429-431 | the value after the colon is read as `ParseValue` reads it; a repeated key throws; a new key is added with its value |
| Reader.JsonReader.Finish | src/ntojs/JsonReader.cs:418 | a finished object with its entries denotes the tree of its fields |
| Reader.JsonReader.ReadString | src/ntojs/JsonReader.cs:442-522 | the text and new state are `ReaderSpec.ReadString`'s |
| Reader.JsonReader.CloseString | src/ntojs/JsonReader.cs:453-454 | the exit at a closing quote yields `ReaderSpec.ReadString`'s result |
| Reader.JsonReader.CutString | src/ntojs/JsonReader.cs:520-521 | the exit at the end of the text records the error and yields `ReaderSpec.ReadString`'s result |
| Reader.JsonReader.ClosedString | src/ntojs/JsonReader.cs:453-454 | a closed body gives its decoded text and the index past the quote |
| Reader.JsonReader.UnclosedString | src/ntojs/JsonReader.cs:520-531 | an unclosed body gives its text, less a pending last plain character, with the error at the end |
| Reader.JsonReader.ReadStringPiece | src/ntojs/JsonReader.cs:449-518 | one loop turn keeps the decoding of the whole string unchanged, or closes it with the text so far |
| Reader.JsonReader.ReadBackslash | src/ntojs/JsonReader.cs:469-518 | flushing the pending run and decoding one escape keeps the decoding of the whole string unchanged |
| Reader.JsonReader.ReadEscape | src/ntojs/JsonReader.cs:480-517 | appends what `EscapePiece` gives and moves past it |
| Reader.JsonReader.RawStep | src/ntojs/JsonReader.cs:456-463 | a plain character joins the pending run without changing the overall decoding |
| Reader.JsonReader.CloseStep | src/ntojs/JsonReader.cs:453-454 | a quote closes the body with the buffer plus the pending run |
| Reader.JsonReader.BackslashStep | src/ntojs/JsonReader.cs:469-473 | a backslash flushes the pending run into the buffer without changing the decoding |
| Reader.JsonReader.EndEscapeStep | src/ntojs/JsonReader.cs:475-476 | a backslash as the last character ends the body unclosed |
| Reader.JsonReader.EscapeStep | src/ntojs/JsonReader.cs:480-517 | an escape appends its piece and decoding resumes after it |
| Reader.JsonReader.EndStep | src/ntojs/JsonReader.cs:520-531 | at the end of the text the body is unclosed, and a pending run loses its last character |
| Reader.JsonReader.ReadStringEnd | src/ntojs/JsonReader.cs:524-534 | the result is the buffer plus the pending run up to one before the cursor; the buffer is left alone when it was empty |
| Reader.JsonReader.ReadValue | src/ntojs/JsonReader.cs:536-567 | the result and new state are `ReaderSpec.ParseValue`'s; booleans are the texts "True" and "False" |
| Reader.JsonReader.UnicodePointToChar | src/ntojs/JsonReader.cs:569-586 | the code unit is the base-16 fold of the characters, non-digits skipped, modulo 2^16 |
| Reader.JsonReader.ShiftDigit | src/ntojs/JsonReader.cs:578-583 | a hexadecimal digit of any case shifts and adds in 32-bit unsigned arithmetic; any other character leaves the total |
| Reader.JsonReader.OnError | src/ntojs/JsonReader.cs:610-614 | the new state is `Scanner.OnError` of the old: the last error wins |
| Reader.JsonReader.ErrorIndex | src/ntojs/JsonReader.cs:599 | -1 or a position the cursor has reached |
| Reader.JsonReader.HasError | src/ntojs/JsonReader.cs:603 | true exactly for a null text or once an error was recorded, so false for empty non-null text |
| Reader.JsonReader.IsErrorEOF | src/ntojs/JsonReader.cs:608 | true exactly for a null text or an error at the end of the text; it implies `HasError` |
| Reader.ReadJson | src/ntojs/JsonReader.cs:46-55 | a fresh reader's result denotes `ReaderSpec.Read` of the text, each container at one position only |

## Left out

- `Debug.Print` in `OnError` and the error descriptions: a trace side effect. Only the error index is modelled.
- The `JsonReader(string, int)` constructor with a start index: only the one-argument constructor, which starts at 0, is modelled.
- The generic `TArray`/`TObject` parameters: the model uses the concrete `JsonArray` and `JsonObject`.
- `Json.cs` (the static `Read` wrapper, the `Write` stub and `DebugDump`) is not part of this model. `Reader.ReadJson` stands in for the `Read` wrapper.
- The non-generic `IEnumerable.GetEnumerator` overloads: they return the same values as the generic ones.
- `Reader.JsonReader.ReadArray`: the source's endless loop on `End`/`Unknown` is modelled as an immediate `Hang` result, not as a loop that runs. `ReaderSpec.ArrayStalls` proves the cursor cannot leave that point. The nulls the source keeps appending to the array meanwhile, without bound, are not modelled.
- Nesting depth: `ReadValue` calls `ReadArray` and `ReadObject`, which call `ReadValue` again for every element and value (src/ntojs/JsonReader.cs:370, src/ntojs/JsonReader.cs:429, src/ntojs/JsonReader.cs:559-563), so text nested deeply enough overflows the .NET call stack and ends the process. The model's recursion has no depth limit and returns a result at any depth.
- Exceptions (the index past the end in the number reader, the repeated key in `JsonObject.Add`, the indexer on a missing key) are modelled as a `Crash` result or a `None`/`ok == false` result. The model does not capture exception types or unwinding.
- Null keys: keys are `seq<Unit>` and cannot be null, so the `ArgumentNullException` that `JsonObject`'s `Add`, indexer, `Get` and `TryGet` family throw on a null key (src/ntojs/JsonObject.cs:24) is not modelled. The reader never passes a null key.
- Dictionary enumeration order: `JsonObject` is a `map`, and `Containers.JsonObject.Values` and `Containers.JsonObject.Enumerate` are multisets with no order.
- The string builder's capacity and a null builder: the builder is a sequence, which is empty for empty text. The reader never reaches the string reader on empty text.

## Findings

| source | as written | input that shows it | evidently intended | confidence | as-written member | corrected member |
|---|---|---|---|---|---|---|
| src/ntojs/JsonObject.cs:48-52 | `Get<T>` returns the default when the stored value is a `T`, and null when it is not | an object with `"a"` holding the string `"x"`: `GetString("a", "d")` returns `"d"`, and `GetString("a")` returns null | return the stored value when it is a `T`, otherwise the default | not executed | Containers.JsonObject.GetIsInverted | Containers.JsonObject.GetIntended |
