/**
 * The JSON reader's recursive descent as pure functions over the text and a
 * `Cursor` (src/ntojs/JsonReader.cs:332-567): the number reader, the string
 * reader and the value, array and object readers, producing a pure `Tree`.
 *
 * The source can also throw (an index past the end in the number reader, a
 * repeated key in an object) or loop forever (an array reader facing the end
 * of input or an unknown character); `Outcome` names these as `Crash` and
 * `Hang`. Everything else is returned as the source returns it, including
 * the partial results it produces after recording an error.
 */
module ReaderSpec {
  import opened Chars
  import opened Scanner

  /** The shape of a parsed value: null, text, an array or an object. */
  datatype Tree =
    | TNull
    | TText(text: seq<Unit>)
    | TArr(elems: seq<Tree>)
    | TObj(fields: map<seq<Unit>, Tree>)

  /** A finished run, an exception escaping the reader, or a loop that never exits. */
  datatype Outcome<T> = Done(value: T) | Crash | Hang

  // ---------------------------------------------------------------------
  // Numbers
  // ---------------------------------------------------------------------

  /** The first index at or after `i` that is the end or holds a non-number character. */
  function NumberEnd(json: seq<Unit>, i: nat): (k: nat)
    requires i <= |json|
    ensures i <= k <= |json|
    decreases |json| - i
  {
    if i < |json| && IsNumberChar(json[i]) then NumberEnd(json, i + 1) else i
  }

  /** The number run holds number characters only and stops on the first other one. */
  lemma {:induction false} NumberEndStops(json: seq<Unit>, i: nat)
    requires i <= |json|
    ensures var k := NumberEnd(json, i);
            && (forall m :: i <= m < k ==> IsNumberChar(json[m]))
            && (k < |json| ==> !IsNumberChar(json[k]))
    decreases |json| - i
  {
    if i < |json| && IsNumberChar(json[i]) {
      NumberEndStops(json, i + 1);
    }
  }

  /**
   * The number reader, entered just after the character the tokenizer
   * classified as a number. It returns that character and every number
   * character after it; reaching the end of the text while doing so records
   * an error at the end. Entered at the end of the text, it reads one
   * position past the end, which throws.
   */
  function ReadNumber(json: seq<Unit>, c: Cursor): (r: (Outcome<seq<Unit>>, Cursor))
    requires ValidCursor(json, c) && 1 <= c.idx
    ensures ValidCursor(json, r.1) && r.1.ahead == c.ahead && c.idx <= r.1.idx
    ensures c.idx == |json| <==> r.0 == Crash
  {
    if c.idx == |json| then (Crash, c)
    else
      var k := NumberEnd(json, c.idx);
      var after := c.(idx := k);
      (Done(json[c.idx - 1..k]), if k == |json| then OnError(after) else after)
  }

  /**
   * What the number reader returns: its first character and the whole run of
   * number characters after it, stopping on the first other character; the
   * error index moves to the end exactly when the run reaches it.
   */
  lemma ReadNumberTakesNumberChars(json: seq<Unit>, c: Cursor)
    requires ValidCursor(json, c) && 1 <= c.idx < |json|
    ensures var (n, after) := ReadNumber(json, c);
            var k := after.idx;
      && (forall m :: c.idx <= m < k ==> IsNumberChar(json[m]))
      && (k == |json| || !IsNumberChar(json[k]))
      && n == Done(json[c.idx - 1..k])
      && |n.value| == k - c.idx + 1
      && after.err == (if k == |json| then |json| else c.err)
  {
    NumberEndStops(json, c.idx);
  }

  // ---------------------------------------------------------------------
  // Strings
  // ---------------------------------------------------------------------

  const UnicodeEscapeLen: nat := 4

  /**
   * The character a backslash escape stands for, as in section 7 of
   * RFC 8259; an escape letter the reader does not know stands for nothing.
   * `\u` is handled separately.
   */
  function Unescape(e: Unit): (r: seq<Unit>)
    ensures |r| <= 1
    ensures |r| == 1 <==> e in {Dquote, Slash, Backslash, LowerB, LowerF, LowerN, LowerR, LowerT}
  {
    if e == Dquote || e == Slash || e == Backslash then [e]
    else if e == LowerB then [Backspace]
    else if e == LowerF then [Feed]
    else if e == LowerN then [Newline]
    else if e == LowerR then [Return]
    else if e == LowerT then [Tab]
    else []
  }

  /**
   * The result of decoding a string body one piece at a time: the decoded
   * text, the index after the body, whether a closing quote ended it, and
   * whether the last piece before the end of the text was a plain character.
   */
  datatype StringScan = StringScan(text: seq<Unit>, end: nat, closed: bool, rawTail: bool)

  /**
   * Decodes the string body that starts at `i`, just past the opening quote.
   * A plain character stands for itself and a backslash starts an escape
   * (see `ScanEscape`); a quote ends the body.
   */
  function ScanString(json: seq<Unit>, i: nat): (r: StringScan)
    requires i <= |json|
    ensures i <= r.end <= |json|
    ensures !r.closed ==> r.end == |json|
    ensures r.rawTail ==> !r.closed && |r.text| > 0
    decreases |json| - i
  {
    if i == |json| then StringScan([], |json|, false, false)
    else if json[i] == Dquote then StringScan([], i + 1, true, false)
    else if json[i] == Backslash then ScanEscape(json, i + 1)
    else
      var rest := ScanString(json, i + 1);
      StringScan([json[i]] + rest.text, rest.end, rest.closed, rest.rawTail || i + 1 == |json|)
  }

  /**
   * One escape, entered at `j` just past the backslash: what it stands for
   * and the index after it. `\u` with four characters after it stands for
   * the code unit they spell in base 16; `\u` with fewer than four
   * characters after it stands for nothing, and the characters after it are
   * read as ordinary text; any other letter stands for what `Unescape` says.
   */
  function EscapePiece(json: seq<Unit>, j: nat): (r: (seq<Unit>, nat))
    requires j < |json|
    ensures j < r.1 <= |json| && |r.0| <= 1
    ensures json[j] != LowerU ==> r == (Unescape(json[j]), j + 1)
    ensures json[j] == LowerU && j + 1 + UnicodeEscapeLen > |json| ==> r == ([], j + 1)
    ensures json[j] == LowerU && j + 1 + UnicodeEscapeLen <= |json| ==>
              r.1 == j + 1 + UnicodeEscapeLen && |r.0| == 1
              && r.0[0] as int == HexQuad(json[j + 1], json[j + 2], json[j + 3], json[j + 4])
  {
    if json[j] != LowerU then (Unescape(json[j]), j + 1)
    else if |json| - (j + 1) < UnicodeEscapeLen then ([], j + 1)
    else ([HexQuad(json[j + 1], json[j + 2], json[j + 3], json[j + 4]) as Unit], j + 1 + UnicodeEscapeLen)
  }

  /**
   * Decodes an escape, entered at `j` just past the backslash, and the rest
   * of the body after it. A backslash at the very end stands for nothing.
   */
  function ScanEscape(json: seq<Unit>, j: nat): (r: StringScan)
    requires j <= |json|
    ensures j <= r.end <= |json|
    ensures !r.closed ==> r.end == |json|
    ensures r.rawTail ==> !r.closed && |r.text| > 0
    decreases |json| - j
  {
    if j == |json| then StringScan([], |json|, false, false)
    else
      var (piece, next) := EscapePiece(json, j);
      var rest := ScanString(json, next);
      StringScan(piece + rest.text, rest.end, rest.closed, rest.rawTail)
  }

  /**
   * The string reader, entered just past the opening quote. A closed string
   * yields its decoded text and leaves the index past the closing quote. An
   * unclosed one records an error at the end of the text and yields the text
   * decoded so far, except that a run of plain characters still pending at
   * the end loses its last character.
   */
  function ReadString(json: seq<Unit>, c: Cursor): (r: (seq<Unit>, Cursor))
    requires ValidCursor(json, c)
    ensures ValidCursor(json, r.1) && r.1.ahead == c.ahead && c.idx <= r.1.idx
    ensures r.1.err == c.err || r.1.err == r.1.idx == |json|
  {
    var s := ScanString(json, c.idx);
    if s.closed then (s.text, c.(idx := s.end))
    else (if s.rawTail then s.text[..|s.text| - 1] else s.text, OnError(c.(idx := |json|)))
  }

  /**
   * A quote-terminated run with no backslash decodes to exactly the
   * characters between the quotes, and the index ends past the closing quote.
   */
  lemma {:induction false} PlainStringIsVerbatim(json: seq<Unit>, c: Cursor, q: nat)
    requires ValidCursor(json, c) && c.idx <= q < |json| && json[q] == Dquote
    requires forall k :: c.idx <= k < q ==> json[k] != Dquote && json[k] != Backslash
    ensures ReadString(json, c) == (json[c.idx..q], c.(idx := q + 1))
  {
    PlainRunScan(json, c.idx, q);
  }

  lemma {:induction false} PlainRunScan(json: seq<Unit>, i: nat, q: nat)
    requires i <= q < |json| && json[q] == Dquote
    requires forall k :: i <= k < q ==> json[k] != Dquote && json[k] != Backslash
    ensures ScanString(json, i) == StringScan(json[i..q], q + 1, true, false)
    decreases q - i
  {
    if i < q {
      PlainRunScan(json, i + 1, q);
      assert json[i..q] == [json[i]] + json[i + 1..q];
    }
  }

  /**
   * An unclosed string with no quote or backslash loses its last character
   * and records an error at the end of the text.
   */
  lemma {:induction false} UnclosedPlainStringDropsLast(json: seq<Unit>, c: Cursor)
    requires ValidCursor(json, c) && c.idx < |json|
    requires forall k :: c.idx <= k < |json| ==> json[k] != Dquote && json[k] != Backslash
    ensures ReadString(json, c) == (json[c.idx..|json| - 1], c.(idx := |json|, err := |json|))
  {
    UnclosedRunScan(json, c.idx);
    var text := json[c.idx..];
    assert text[..|text| - 1] == json[c.idx..|json| - 1];
  }

  lemma {:induction false} UnclosedRunScan(json: seq<Unit>, i: nat)
    requires i < |json|
    requires forall k :: i <= k < |json| ==> json[k] != Dquote && json[k] != Backslash
    ensures ScanString(json, i) == StringScan(json[i..], |json|, false, true)
    decreases |json| - i
  {
    if i + 1 < |json| {
      UnclosedRunScan(json, i + 1);
      assert json[i..] == [json[i]] + json[i + 1..];
    }
  }

  /**
   * Each of `\"` `\\` `\/` `\b` `\f` `\n` `\r` `\t` decodes to one character
   * (section 7 of RFC 8259); any other letter after a backslash, except `u`,
   * decodes to nothing. Decoding then carries on after the escape.
   */
  lemma EscapeDecodesToOneUnit(json: seq<Unit>, i: nat)
    requires i + 1 < |json| && json[i] == Backslash && json[i + 1] != LowerU
    ensures var e := json[i + 1];
            var s := ScanString(json, i);
            var rest := ScanString(json, i + 2);
            && s.text == Unescape(e) + rest.text
            && (s.end, s.closed) == (rest.end, rest.closed)
    ensures json[i + 1] == LowerN ==> ScanString(json, i).text == [Newline] + ScanString(json, i + 2).text
    ensures json[i + 1] == LowerT ==> ScanString(json, i).text == [Tab] + ScanString(json, i + 2).text
    ensures json[i + 1] == Dquote ==> ScanString(json, i).text == [Dquote] + ScanString(json, i + 2).text
    ensures json[i + 1] == Backslash ==> ScanString(json, i).text == [Backslash] + ScanString(json, i + 2).text
    ensures json[i + 1] == Slash ==> ScanString(json, i).text == [Slash] + ScanString(json, i + 2).text
    ensures json[i + 1] == LowerB ==> ScanString(json, i).text == [Backspace] + ScanString(json, i + 2).text
    ensures json[i + 1] == LowerF ==> ScanString(json, i).text == [Feed] + ScanString(json, i + 2).text
    ensures json[i + 1] == LowerR ==> ScanString(json, i).text == [Return] + ScanString(json, i + 2).text
  {
  }

  /**
   * `\u` followed by four hexadecimal digits, in either letter case, decodes
   * to the one code unit whose value those digits spell in base 16.
   */
  lemma UnicodeEscapeDecodes(json: seq<Unit>, i: nat)
    requires i + 6 <= |json| && json[i] == Backslash && json[i + 1] == LowerU
    requires forall k :: i + 2 <= k < i + 6 ==> IsHexDigit(json[k])
    ensures var s := ScanString(json, i);
            var rest := ScanString(json, i + 6);
            && s.text == [(4096 * HexDigitValue(json[i + 2]) + 256 * HexDigitValue(json[i + 3])
                           + 16 * HexDigitValue(json[i + 4]) + HexDigitValue(json[i + 5])) as Unit]
                         + rest.text
            && (s.end, s.closed) == (rest.end, rest.closed)
  {
    HexQuadOfDigits(json[i + 2], json[i + 3], json[i + 4], json[i + 5]);
  }

  /**
   * With fewer than four characters after `\u`, the escape contributes
   * nothing and the characters after `u` are decoded as ordinary text.
   */
  lemma ShortUnicodeEscapeIsDropped(json: seq<Unit>, i: nat)
    requires i + 2 <= |json| && |json| < i + 6 && json[i] == Backslash && json[i + 1] == LowerU
    ensures ScanString(json, i) == ScanString(json, i + 2)
  {
  }

  // ---------------------------------------------------------------------
  // Values, arrays and objects
  // ---------------------------------------------------------------------

  /**
   * The value reader: peeks a token, flushes it, and reads the value it
   * starts. Booleans become the text "True" or "False"; numbers the text of
   * the number. Any other token records an error and yields null.
   */
  function ParseValue(json: seq<Unit>, c: Cursor): (r: (Outcome<Tree>, Cursor))
    requires ValidCursor(json, c)
    ensures ValidCursor(json, r.1) && c.idx <= r.1.idx
    ensures r.0.Done? ==> r.1.ahead == None
    ensures r.1.err == c.err || c.idx <= r.1.err
    decreases |json| - c.idx, 2
  {
    var (t, p) := Peek(json, c);
    var f := Flush(p);
    match t
    case String =>
      var (s, after) := ReadString(json, f);
      (Done(TText(s)), after)
    case Number =>
      var (n, after) := ReadNumber(json, f);
      (if n.Done? then Done(TText(n.value)) else Crash, after)
    case True => (Done(TText(TrueText)), f)
    case False => (Done(TText(FalseText)), f)
    case Null => (Done(TNull), f)
    case ArrayBegin => ParseArray(json, f, [])
    case ObjectBegin => ParseObject(json, f, map[])
    case _ => (Done(TNull), OnError(f))
  }

  /**
   * The array reader's loop, with the elements read so far in `acc`: a comma
   * is skipped, `]` ends the array, and any other token starts an element.
   * The end of the text or an unknown character makes the source loop
   * forever (see `ArrayStalls`).
   */
  function ParseArray(json: seq<Unit>, c: Cursor, acc: seq<Tree>): (r: (Outcome<Tree>, Cursor))
    requires ValidCursor(json, c) && c.ahead == None
    ensures ValidCursor(json, r.1) && c.idx <= r.1.idx
    ensures r.0.Done? ==> r.1.ahead == None
    ensures r.1.err == c.err || c.idx <= r.1.err
    decreases |json| - c.idx, 1
  {
    var (t, p) := Peek(json, c);
    if t == ValueDelim then ParseArray(json, Flush(p), acc)
    else if t == ArrayEnd then (Done(TArr(acc)), Flush(p))
    else if Stalls(t) then (Hang, p)
    else
      var (v, after) := ParseValue(json, p);
      if v.Done? then ParseArray(json, after, acc + [v.value]) else (v, after)
  }

  /**
   * The object reader's loop, with the fields read so far in `m`: a comma
   * is skipped, `}` ends the object, and a string starts a key (see
   * `ParseMember`). Any other token, or a key without a colon after it,
   * records an error and yields the object built so far; a repeated key
   * throws.
   */
  function ParseObject(json: seq<Unit>, c: Cursor, m: map<seq<Unit>, Tree>): (r: (Outcome<Tree>, Cursor))
    requires ValidCursor(json, c) && c.ahead == None
    ensures ValidCursor(json, r.1) && c.idx <= r.1.idx
    ensures r.0.Done? ==> r.1.ahead == None
    ensures r.1.err == c.err || c.idx <= r.1.err
    decreases |json| - c.idx, 1
  {
    var (t, p) := Peek(json, c);
    var f := Flush(p);
    if t == ValueDelim then ParseObject(json, f, m)
    else if t == ObjectEnd then (Done(TObj(m)), f)
    else if t == String then ParseObjectKey(json, f, m)
    else (Done(TObj(m)), OnError(f))
  }

  /**
   * The `String` case of the object reader's loop, entered just past the
   * key's opening quote: a key without a colon records an error and yields
   * the object so far, a failed value ends the object, a repeated key
   * throws, and a new key is added before the loop goes on.
   */
  function ParseObjectKey(json: seq<Unit>, f: Cursor, m: map<seq<Unit>, Tree>): (r: (Outcome<Tree>, Cursor))
    requires ValidCursor(json, f) && f.ahead == None
    ensures ValidCursor(json, r.1) && f.idx <= r.1.idx
    ensures r.0.Done? ==> r.1.ahead == None
    ensures r.1.err == f.err || f.idx <= r.1.err
    decreases |json| - f.idx, 1
  {
    var mb := ParseMember(json, f);
    if !mb.colon then (Done(TObj(m)), OnError(mb.after))
    else if !mb.value.Done? then (mb.value, mb.after)
    else if mb.key in m then (Crash, mb.after)
    else ParseObject(json, mb.after, m[mb.key := mb.value.value])
  }

  /** One key of an object: the key, whether a colon followed it, the value, and the cursor after. */
  datatype Member = Member(key: seq<Unit>, colon: bool, value: Outcome<Tree>, after: Cursor)

  /**
   * Reads one key of an object, entered just past the key's opening quote:
   * the key, then a token that must be `:`, then the value. Without the
   * colon no value is read.
   */
  function ParseMember(json: seq<Unit>, f: Cursor): (r: Member)
    requires ValidCursor(json, f) && f.ahead == None
    ensures ValidCursor(json, r.after) && f.idx <= r.after.idx
    ensures r.colon ==> f.idx < r.after.idx
    ensures !r.colon ==> r.value == Done(TNull) && r.after.ahead == None
    ensures r.value.Done? ==> r.after.ahead == None
    ensures r.after.err == f.err || f.idx <= r.after.err
    decreases |json| - f.idx, 0
  {
    var (key, afterKey) := ReadString(json, f);
    var (t2, afterColon) := ReadToken(json, afterKey);
    if t2 != KeyDelim then Member(key, false, Done(TNull), afterColon)
    else
      var (v, after) := ParseValue(json, afterColon);
      Member(key, true, v, after)
  }

  /**
   * The public entry point: null or empty text, or a first token that is the
   * end or unknown, yields null without recording an error; otherwise one
   * value is read.
   */
  function Read(json: seq<Unit>, isNull: bool, c: Cursor): (r: (Outcome<Tree>, Cursor))
    requires ValidCursor(json, c)
    requires isNull ==> json == []
    ensures ValidCursor(json, r.1)
    ensures (isNull || json == []) ==> r == (Done(TNull), c)
    ensures !isNull && json != [] && Stalls(Peek(json, c).0) ==> r.0 == Done(TNull) && r.1.err == c.err
    ensures r.1.err == c.err || c.idx <= r.1.err
  {
    if isNull || |json| == 0 then (Done(TNull), c)
    else
      var (t, p) := Peek(json, c);
      if t == None || Stalls(t) then (Done(TNull), p)
      else ParseValue(json, p)
  }

  // ---------------------------------------------------------------------
  // Properties of the readers
  // ---------------------------------------------------------------------

  /**
   * The array reader's non-termination. When the peeked token is `End` or
   * `Unknown`, the loop's next iteration reads a value, which records an
   * error and yields null, appends it, and returns to the loop head with the
   * index where it was. From there the same peek yields the same token, and
   * the next iteration returns to the same cursor: the loop never exits. (The
   * source's list meanwhile grows by one null on every turn.)
   */
  lemma ArrayStalls(json: seq<Unit>, c: Cursor)
    requires ValidCursor(json, c) && c.ahead == None
    requires Stalls(Peek(json, c).0)
    ensures var (t, p) := Peek(json, c);
            var (v, head) := ParseValue(json, p);
            && v == Done(TNull)
            && head == Cursor(p.idx, None, p.idx)
            && Peek(json, head) == (t, p.(err := p.idx))
            && ParseValue(json, Peek(json, head).1) == (v, head)
  {
    StallRepeats(json, c);
  }

  /** The array reader keeps the elements it has and appends new ones after them, in order. */
  lemma {:induction false} ArrayKeepsOrder(json: seq<Unit>, c: Cursor, acc: seq<Tree>)
    requires ValidCursor(json, c) && c.ahead == None
    requires ParseArray(json, c, acc).0.Done?
    ensures var t := ParseArray(json, c, acc).0.value;
            t.TArr? && |acc| <= |t.elems| && t.elems[..|acc|] == acc
    decreases |json| - c.idx
  {
    var (t, p) := Peek(json, c);
    if t == ValueDelim {
      ArrayKeepsOrder(json, Flush(p), acc);
    } else if t == ArrayEnd {
    } else {
      var (v, after) := ParseValue(json, p);
      ArrayKeepsOrder(json, after, acc + [v.value]);
      var elems := ParseArray(json, c, acc).0.value.elems;
      assert elems[..|acc| + 1][..|acc|] == elems[..|acc|];
    }
  }

  /** A finished array with `a` in front of its elements; any other outcome unchanged. */
  function WithPrefix(a: seq<Tree>, r: (Outcome<Tree>, Cursor)): (Outcome<Tree>, Cursor) {
    if r.0.Done? && r.0.value.TArr? then (Done(TArr(a + r.0.value.elems)), r.1) else r
  }

  /**
   * The elements read before do not influence the rest of the array reader:
   * starting with `a + b` read gives the result of starting with `b`, with
   * `a` in front of the elements, the same cursor, and the same failure.
   */
  lemma {:induction false} ArrayPrefix(json: seq<Unit>, c: Cursor, a: seq<Tree>, b: seq<Tree>)
    requires ValidCursor(json, c) && c.ahead == None
    ensures ParseArray(json, c, a + b) == WithPrefix(a, ParseArray(json, c, b))
    decreases |json| - c.idx
  {
    var (t, p) := Peek(json, c);
    if t == ValueDelim {
      ArrayPrefix(json, Flush(p), a, b);
    } else if t == ArrayEnd || Stalls(t) {
    } else {
      var (v, after) := ParseValue(json, p);
      if v.Done? {
        assert (a + b) + [v.value] == a + (b + [v.value]);
        ArrayPrefix(json, after, a, b + [v.value]);
      }
    }
  }

  /**
   * The values read become the array's elements: when the loop reads a value
   * `v`, the finished array holds the elements before it, then `v`, then the
   * elements the loop reads from there on.
   */
  lemma ArrayElement(json: seq<Unit>, c: Cursor, acc: seq<Tree>)
    requires ValidCursor(json, c) && c.ahead == None
    requires var t := Peek(json, c).0; t != ValueDelim && t != ArrayEnd && !Stalls(t)
    requires ParseValue(json, Peek(json, c).1).0.Done?
    ensures var (v, after) := ParseValue(json, Peek(json, c).1);
            ParseArray(json, c, acc) == WithPrefix(acc + [v.value], ParseArray(json, after, []))
  {
    var (v, after) := ParseValue(json, Peek(json, c).1);
    ArrayPrefix(json, after, acc + [v.value], []);
    assert acc + [v.value] + [] == acc + [v.value];
  }

  /** The object reader keeps every field it has read; new keys only add to them. */
  lemma {:induction false} ObjectKeepsFields(json: seq<Unit>, c: Cursor, m: map<seq<Unit>, Tree>)
    requires ValidCursor(json, c) && c.ahead == None
    requires ParseObject(json, c, m).0.Done?
    ensures var t := ParseObject(json, c, m).0.value;
            t.TObj? && forall k :: k in m ==> k in t.fields && t.fields[k] == m[k]
    decreases |json| - c.idx
  {
    var (t, p) := Peek(json, c);
    var f := Flush(p);
    if t == ValueDelim {
      ObjectKeepsFields(json, f, m);
    } else if t == String {
      var mb := ParseMember(json, f);
      if mb.colon && mb.value.Done? && mb.key !in m {
        ObjectKeepsFields(json, mb.after, m[mb.key := mb.value.value]);
      }
    }
  }

  /** Reading a key that is already in the object throws. */
  lemma RepeatedKeyCrashes(json: seq<Unit>, c: Cursor, m: map<seq<Unit>, Tree>)
    requires ValidCursor(json, c) && c.ahead == None
    requires Peek(json, c).0 == String
    requires var mb := ParseMember(json, Flush(Peek(json, c).1));
             mb.colon && mb.value.Done? && mb.key in m
    ensures ParseObject(json, c, m).0 == Crash
  {
  }

  /**
   * One turn of the object reader, by the token it peeks: a comma is skipped;
   * `}` returns the fields read so far with the error index untouched; a key
   * without a colon after it records an error where the reader stopped and
   * returns the fields so far; a new key with its value is added before the
   * loop goes on; any other token records an error and returns the fields
   * so far. An unexpected punctuation token is consumed and the error lies
   * just past it; `End` or an unknown character consumes nothing and the
   * error lies where it stands, at the unknown character or at the end of
   * the text.
   */
  lemma ObjectFromToken(json: seq<Unit>, c: Cursor, m: map<seq<Unit>, Tree>)
    requires ValidCursor(json, c) && c.ahead == None
    ensures var (t, p) := Peek(json, c);
            var f := Flush(p);
            var r := ParseObject(json, c, m);
            var mb := ParseMember(json, f);
      && (t == ValueDelim ==> r == ParseObject(json, f, m))
      && (t == ObjectEnd ==> r == (Done(TObj(m)), f) && r.1.err == c.err)
      && (t == String && !mb.colon ==>
            r == (Done(TObj(m)), mb.after.(err := mb.after.idx)) && c.idx < r.1.err)
      && (t == String && mb.colon && mb.value.Done? && mb.key !in m ==>
            r == ParseObject(json, mb.after, m[mb.key := mb.value.value]))
      && (t !in {ValueDelim, ObjectEnd, String} ==> r == (Done(TObj(m)), Cursor(p.idx, None, p.idx)))
  {
  }

  /**
   * The error index never moves backwards: each error overwrites the last
   * one with the current index, and the index only grows. So the error index
   * after a read is the position of the last error it recorded.
   */
  lemma ErrorIndexNeverDecreases(json: seq<Unit>, c: Cursor)
    requires ValidCursor(json, c)
    ensures c.err <= ParseValue(json, c).1.err <= ParseValue(json, c).1.idx
  {
  }

  /**
   * How a value is chosen from its first token: "True" or "False" for the
   * booleans and null for `null`, with nothing else read; a string, number,
   * array or object token hands over to its reader; any other token records
   * an error and yields null. An unexpected punctuation token is consumed and
   * the error lies just past it; `End` or an unknown character consumes
   * nothing and the error lies where it stands, at the unknown character or
   * at the end of the text.
   */
  lemma ValueFromToken(json: seq<Unit>, c: Cursor)
    requires ValidCursor(json, c)
    ensures var (t, p) := Peek(json, c);
            var f := Flush(p);
            var r := ParseValue(json, c);
      && (t == True ==> r == (Done(TText(TrueText)), f))
      && (t == False ==> r == (Done(TText(FalseText)), f))
      && (t == Null ==> r == (Done(TNull), f))
      && (t == String ==> r == (Done(TText(ReadString(json, f).0)), ReadString(json, f).1))
      && (t == Number ==> r.1 == ReadNumber(json, f).1 && (r.0 == Crash <==> f.idx == |json|))
      && (t == Number && f.idx < |json| ==> r.0 == Done(TText(ReadNumber(json, f).0.value)))
      && (t == ArrayBegin ==> r == ParseArray(json, f, []))
      && (t == ObjectBegin ==> r == ParseObject(json, f, map[]))
      && (t in {KeyDelim, ValueDelim, ArrayEnd, ObjectEnd, End, Unknown} ==>
            r == (Done(TNull), Cursor(p.idx, None, p.idx)))
  {
  }

  /**
   * With nothing buffered, a literal value leaves the cursor just past its
   * whole word, after the whitespace, with no error; an unexpected
   * punctuation character records the error just past itself; an unknown
   * character records the error on itself, and the end of the text records
   * it at the end, both without moving past the whitespace.
   */
  lemma ValueCursor(json: seq<Unit>, c: Cursor)
    requires ValidCursor(json, c) && c.ahead == None
    ensures var t := Peek(json, c).0;
            var r := ParseValue(json, c);
            var j := SkipWs(json, c.idx);
      && (t == True ==> r.1 == Cursor(j + |TrueWord|, None, c.err))
      && (t == False ==> r.1 == Cursor(j + |FalseWord|, None, c.err))
      && (t == Null ==> r.1 == Cursor(j + |NullWord|, None, c.err))
      && (t in {KeyDelim, ValueDelim, ArrayEnd, ObjectEnd} ==> r.1 == Cursor(j + 1, None, j + 1))
      && (t == Unknown ==> j < |json| && r.1 == Cursor(j, None, j))
      && (t == End ==> j == |json| && r.1 == Cursor(|json|, None, |json|))
  {
    ScanTokenClassifies(json, c.idx);
  }

  // ---------------------------------------------------------------------
  // Worked inputs
  // ---------------------------------------------------------------------

  /** A number that is the last character of the text throws: `5` alone. */
  lemma LoneDigitCrashes()
    ensures Read([0x35], false, Initial).0 == Crash
  {
    var json: seq<Unit> := [0x35];
    assert Peek(json, Initial) == (Number, Cursor(1, Number, -1));
  }

  /**
   * An unclosed string keeps all but its last character: `"abc` reads as
   * the text `ab`, with the error at the end of the text.
   */
  lemma UnclosedStringExample()
    ensures var json: seq<Unit> := [Dquote, LowerA, LowerB, 0x63];
            Read(json, false, Initial) == (Done(TText([LowerA, LowerB])), Cursor(4, None, 4))
  {
    var json: seq<Unit> := [Dquote, LowerA, LowerB, 0x63];
    var p := Cursor(1, String, -1);
    assert Peek(json, Initial) == (String, p);
    UnclosedPlainStringDropsLast(json, Flush(p));
    assert json[1..3] == [LowerA, LowerB];
  }

  /** `true` reads as the text "True", with the cursor at the end and no error. */
  lemma TrueExample()
    ensures Read(TrueWord, false, Initial) == (Done(TText(TrueText)), Cursor(4, None, -1))
  {
    assert TrueWord[0..4] == TrueWord;
    assert Peek(TrueWord, Initial) == (True, Cursor(4, True, -1));
    assert ParseValue(TrueWord, Cursor(4, True, -1)) == (Done(TText(TrueText)), Cursor(4, None, -1));
  }

  /** `]` alone is an unexpected token: null, with the error just past it. */
  lemma UnexpectedTokenExample()
    ensures Read([BracketClose], false, Initial) == (Done(TNull), Cursor(1, None, 1))
  {
    assert Peek([BracketClose], Initial) == (ArrayEnd, Cursor(1, ArrayEnd, -1));
  }

  /** `["a",null]` reads as the array of the text `a` and null, in that order. */
  lemma ArrayExample()
    ensures var json: seq<Unit> := [BracketOpen, Dquote, LowerA, Dquote, Comma, LowerN, LowerU, LowerL, LowerL, BracketClose];
            Read(json, false, Initial) == (Done(TArr([TText([LowerA]), TNull])), Cursor(10, None, -1))
  {
    var json: seq<Unit> := [BracketOpen, Dquote, LowerA, Dquote, Comma, LowerN, LowerU, LowerL, LowerL, BracketClose];
    assert Peek(json, Initial) == (ArrayBegin, Cursor(1, ArrayBegin, -1));
    var c1 := Cursor(1, None, -1);
    var p1 := Cursor(2, String, -1);
    assert Peek(json, c1) == (String, p1);
    PlainStringIsVerbatim(json, Flush(p1), 3);
    assert json[2..3] == [LowerA];
    var c4 := Cursor(4, None, -1);
    assert ParseValue(json, p1) == (Done(TText([LowerA])), c4);
    assert Peek(json, c4) == (ValueDelim, Cursor(5, ValueDelim, -1));
    var c5 := Cursor(5, None, -1);
    assert json[5..9] == NullWord;
    var p5 := Cursor(9, Null, -1);
    assert Peek(json, c5) == (Null, p5);
    var c9 := Cursor(9, None, -1);
    assert ParseValue(json, p5) == (Done(TNull), c9);
    assert Peek(json, c9) == (ArrayEnd, Cursor(10, ArrayEnd, -1));
    assert ParseArray(json, c9, [TText([LowerA]), TNull]) == (Done(TArr([TText([LowerA]), TNull])), Cursor(10, None, -1));
    assert [TText([LowerA])] + [TNull] == [TText([LowerA]), TNull];
    assert ParseArray(json, c5, [TText([LowerA])]) == (Done(TArr([TText([LowerA]), TNull])), Cursor(10, None, -1));
    assert ParseArray(json, c4, [TText([LowerA])]) == (Done(TArr([TText([LowerA]), TNull])), Cursor(10, None, -1));
    assert [] + [TText([LowerA])] == [TText([LowerA])];
    assert ParseArray(json, c1, []) == (Done(TArr([TText([LowerA]), TNull])), Cursor(10, None, -1));
  }

  /** `[12,3]` reads as the array of the texts `12` and `3`: numbers come back as their text. */
  lemma NumberArrayExample()
    ensures var json: seq<Unit> := [BracketOpen, 0x31, 0x32, Comma, 0x33, BracketClose];
            Read(json, false, Initial) == (Done(TArr([TText([0x31, 0x32]), TText([0x33])])), Cursor(6, None, -1))
  {
    var json: seq<Unit> := [BracketOpen, 0x31, 0x32, Comma, 0x33, BracketClose];
    assert Peek(json, Initial) == (ArrayBegin, Cursor(1, ArrayBegin, -1));
    var c1 := Cursor(1, None, -1);
    var p1 := Cursor(2, Number, -1);
    assert Peek(json, c1) == (Number, p1);
    assert NumberEnd(json, 2) == 3;
    assert json[1..3] == [0x31, 0x32];
    var c3 := Cursor(3, None, -1);
    assert ParseValue(json, p1) == (Done(TText([0x31, 0x32])), c3);
    assert Peek(json, c3) == (ValueDelim, Cursor(4, ValueDelim, -1));
    var c4 := Cursor(4, None, -1);
    var p4 := Cursor(5, Number, -1);
    assert Peek(json, c4) == (Number, p4);
    assert NumberEnd(json, 5) == 5;
    assert json[4..5] == [0x33];
    var c5 := Cursor(5, None, -1);
    assert ParseValue(json, p4) == (Done(TText([0x33])), c5);
    assert Peek(json, c5) == (ArrayEnd, Cursor(6, ArrayEnd, -1));
    var both := [TText([0x31, 0x32]), TText([0x33])];
    assert [TText([0x31, 0x32])] + [TText([0x33])] == both;
    assert ParseArray(json, c5, both) == (Done(TArr(both)), Cursor(6, None, -1));
    assert ParseArray(json, c4, [TText([0x31, 0x32])]) == (Done(TArr(both)), Cursor(6, None, -1));
    assert ParseArray(json, c3, [TText([0x31, 0x32])]) == (Done(TArr(both)), Cursor(6, None, -1));
    assert [] + [TText([0x31, 0x32])] == [TText([0x31, 0x32])];
    assert ParseArray(json, c1, []) == (Done(TArr(both)), Cursor(6, None, -1));
  }

  /**
   * An unknown character as a value consumes nothing: `x` read as a value
   * gives null with the error on the `x` itself, at index 0.
   */
  lemma UnknownValueExample()
    ensures ParseValue([0x78], Initial) == (Done(TNull), Cursor(0, None, 0))
  {
    assert Peek([0x78], Initial) == (Unknown, Cursor(0, Unknown, -1));
  }

  /**
   * `{x}`: an unknown character where a key belongs records the error on
   * that character, at index 1, and yields the empty object.
   */
  lemma UnknownInObjectExample()
    ensures Read([BraceOpen, 0x78, BraceClose], false, Initial) == (Done(TObj(map[])), Cursor(1, None, 1))
  {
    var json: seq<Unit> := [BraceOpen, 0x78, BraceClose];
    assert Peek(json, Initial) == (ObjectBegin, Cursor(1, ObjectBegin, -1));
    assert Peek(json, Cursor(1, None, -1)) == (Unknown, Cursor(1, Unknown, -1));
    assert ParseObject(json, Cursor(1, None, -1), map[]) == (Done(TObj(map[])), Cursor(1, None, 1));
    assert ParseValue(json, Cursor(1, ObjectBegin, -1)) == (Done(TObj(map[])), Cursor(1, None, 1));
  }

  /** `[` alone never finishes: the array reader faces the end of the text. */
  lemma OpenArrayHangs()
    ensures Read([BracketOpen], false, Initial).0 == Hang
  {
    assert Peek([BracketOpen], Initial) == (ArrayBegin, Cursor(1, ArrayBegin, -1));
    assert Peek([BracketOpen], Cursor(1, None, -1)) == (End, Cursor(1, End, -1));
    assert ParseArray([BracketOpen], Cursor(1, None, -1), []).0 == Hang;
    assert ParseValue([BracketOpen], Cursor(1, ArrayBegin, -1)).0 == Hang;
  }

  /**
   * `{"a":}` yields an object mapping "a" to null, and the last error it
   * records is at index 6, the end of the text, so it reads as an
   * end-of-input error.
   */
  lemma MissingValueExample()
    ensures var json: seq<Unit> := [BraceOpen, Dquote, LowerA, Dquote, Colon, BraceClose];
            Read(json, false, Initial) == (Done(TObj(map[[LowerA] := TNull])), Cursor(6, None, 6))
  {
    var json: seq<Unit> := [BraceOpen, Dquote, LowerA, Dquote, Colon, BraceClose];
    var c1 := Cursor(1, ObjectBegin, -1);
    assert Peek(json, Initial) == (ObjectBegin, c1);
    var c2 := Cursor(1, None, -1);
    var c3 := Cursor(2, String, -1);
    assert Peek(json, c2) == (String, c3);
    PlainStringIsVerbatim(json, Flush(c3), 3);
    assert json[2..3] == [LowerA];
    var c4 := Cursor(4, None, -1);
    assert ReadString(json, Flush(c3)) == ([LowerA], c4);
    var c5 := Cursor(5, None, -1);
    assert ReadToken(json, c4) == (KeyDelim, c5);
    assert Peek(json, c5) == (ObjectEnd, Cursor(6, ObjectEnd, -1));
    var c6 := Cursor(6, None, 6);
    assert ParseValue(json, c5) == (Done(TNull), c6);
    assert Peek(json, c6) == (End, Cursor(6, End, 6));
    assert ParseObject(json, c6, map[[LowerA] := TNull]) == (Done(TObj(map[[LowerA] := TNull])), c6);
    assert ParseObjectKey(json, Flush(c3), map[]) == (Done(TObj(map[[LowerA] := TNull])), c6);
    assert ParseObject(json, c2, map[]) == (Done(TObj(map[[LowerA] := TNull])), c6);
  }

  /** The text `{"a":"b","c":null}`. */
  const ObjectText: seq<Unit> := [BraceOpen, Dquote, LowerA, Dquote, Colon, Dquote, LowerB, Dquote, Comma,
                                  Dquote, 0x63, Dquote, Colon, LowerN, LowerU, LowerL, LowerL, BraceClose]

  /**
   * `{"a":"b","c":null}` reads as the object with both fields, closed by `}`
   * with no error recorded.
   */
  lemma ObjectExample()
    ensures Read(ObjectText, false, Initial)
              == (Done(TObj(map[[LowerA] := TText([LowerB]), [0x63] := TNull])), Cursor(18, None, -1))
  {
    var json := ObjectText;
    var m1 := map[[LowerA] := TText([LowerB])];
    var done := (Done(TObj(map[[LowerA] := TText([LowerB]), [0x63] := TNull])), Cursor(18, None, -1));
    assert Peek(json, Initial) == (ObjectBegin, Cursor(1, ObjectBegin, -1));
    var c1 := Cursor(1, None, -1);
    var p1 := Cursor(2, String, -1);
    assert Peek(json, c1) == (String, p1);
    PlainStringIsVerbatim(json, Flush(p1), 3);
    assert json[2..3] == [LowerA];
    var c4 := Cursor(4, None, -1);
    assert ReadString(json, Flush(p1)) == ([LowerA], c4);
    var c5 := Cursor(5, None, -1);
    assert ReadToken(json, c4) == (KeyDelim, c5);
    var p5 := Cursor(6, String, -1);
    assert Peek(json, c5) == (String, p5);
    PlainStringIsVerbatim(json, Flush(p5), 7);
    assert json[6..7] == [LowerB];
    var c8 := Cursor(8, None, -1);
    assert ParseValue(json, c5) == (Done(TText([LowerB])), c8);
    assert ParseMember(json, Flush(p1)) == Member([LowerA], true, Done(TText([LowerB])), c8);
    ObjectExampleRest();
    assert ParseObjectKey(json, Flush(p1), map[]) == done;
    assert ParseObject(json, c1, map[]) == done;
  }

  /** The rest of `ObjectExample`: after the first field, the comma, the second field and `}`. */
  lemma ObjectExampleRest()
    ensures ParseObject(ObjectText, Cursor(8, None, -1), map[[LowerA] := TText([LowerB])])
              == (Done(TObj(map[[LowerA] := TText([LowerB]), [0x63] := TNull])), Cursor(18, None, -1))
  {
    var json := ObjectText;
    var m1 := map[[LowerA] := TText([LowerB])];
    var m2 := map[[LowerA] := TText([LowerB]), [0x63] := TNull];
    assert m1[[0x63] := TNull] == m2;
    var done := (Done(TObj(m2)), Cursor(18, None, -1));
    var c8 := Cursor(8, None, -1);
    assert Peek(json, c8) == (ValueDelim, Cursor(9, ValueDelim, -1));
    var c9 := Cursor(9, None, -1);
    var p9 := Cursor(10, String, -1);
    assert Peek(json, c9) == (String, p9);
    PlainStringIsVerbatim(json, Flush(p9), 11);
    assert json[10..11] == [0x63];
    var c12 := Cursor(12, None, -1);
    assert ReadString(json, Flush(p9)) == ([0x63], c12);
    var c13 := Cursor(13, None, -1);
    assert ReadToken(json, c12) == (KeyDelim, c13);
    assert json[13..17] == NullWord;
    assert Peek(json, c13) == (Null, Cursor(17, Null, -1));
    var c17 := Cursor(17, None, -1);
    assert ParseValue(json, c13) == (Done(TNull), c17);
    assert ParseMember(json, Flush(p9)) == Member([0x63], true, Done(TNull), c17);
    assert Peek(json, c17) == (ObjectEnd, Cursor(18, ObjectEnd, -1));
    assert ParseObject(json, c17, m2) == done;
    assert ParseObjectKey(json, Flush(p9), m1) == done;
    assert ParseObject(json, c9, m1) == done;
  }

  /**
   * `{"a" 1}`: a key without a colon after it records an error where the
   * reader stopped, just past the token it found instead, and yields the
   * object built so far, here the empty one.
   */
  lemma MissingColonExample()
    ensures var json: seq<Unit> := [BraceOpen, Dquote, LowerA, Dquote, Space, 0x31, BraceClose];
            Read(json, false, Initial) == (Done(TObj(map[])), Cursor(6, None, 6))
  {
    var json: seq<Unit> := [BraceOpen, Dquote, LowerA, Dquote, Space, 0x31, BraceClose];
    assert Peek(json, Initial) == (ObjectBegin, Cursor(1, ObjectBegin, -1));
    var c1 := Cursor(1, None, -1);
    var p1 := Cursor(2, String, -1);
    assert Peek(json, c1) == (String, p1);
    PlainStringIsVerbatim(json, Flush(p1), 3);
    assert json[2..3] == [LowerA];
    var c4 := Cursor(4, None, -1);
    assert ReadString(json, Flush(p1)) == ([LowerA], c4);
    assert SkipWs(json, 4) == 5;
    var c6 := Cursor(6, None, -1);
    assert ReadToken(json, c4) == (Number, c6);
    assert ParseMember(json, Flush(p1)) == Member([LowerA], false, Done(TNull), c6);
    assert ParseObject(json, c1, map[]) == (Done(TObj(map[])), Cursor(6, None, 6));
  }
}
