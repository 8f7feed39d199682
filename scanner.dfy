/**
 * The reader's tokenizer as pure functions over the input text: the
 * whitespace skipper, the one-character token classifier, and the one-token
 * lookahead buffer (src/ntojs/JsonReader.cs:99-314).
 *
 * The reader's mutable cursor is modelled by `Cursor`: the index `idx`, the
 * buffered token `ahead` and the error index `err`. Each function here takes
 * the cursor before an operation and returns the cursor after it; the class
 * `Reader.JsonReader` runs the same operations on its fields and is proved to
 * agree with these functions.
 */
module Scanner {
  import opened Chars

  datatype TokenType =
    | None
    | String | Number | True | False | Null
    | KeyDelim | ValueDelim
    | ArrayBegin | ArrayEnd
    | ObjectBegin | ObjectEnd
    | End | Unknown

  /** The two token kinds whose scan does not step past a character. */
  predicate Stalls(t: TokenType) {
    t == End || t == Unknown
  }

  /** Index into the text, buffered lookahead token, error index (-1 for none). */
  datatype Cursor = Cursor(idx: nat, ahead: TokenType, err: int)

  /**
   * What holds of every cursor the reader reaches: the index stays within the
   * text, the error index is -1 or a position already reached, and a buffered
   * token that consumed a character has a character behind it.
   */
  predicate ValidCursor(json: seq<Unit>, c: Cursor) {
    && c.idx <= |json|
    && -1 <= c.err <= c.idx
    && (c.ahead != None && !Stalls(c.ahead) ==> 1 <= c.idx)
  }

  /** The cursor before the first token: index 0, nothing buffered, no error. */
  const Initial: Cursor := Cursor(0, None, -1)

  /** The least index at or after `i` that is the end or holds a non-whitespace character. */
  function SkipWs(json: seq<Unit>, i: nat): (r: nat)
    ensures i <= r
    ensures i <= |json| ==> r <= |json|
    decreases |json| - i
  {
    if i < |json| && IsWhiteSpace(json[i]) then SkipWs(json, i + 1) else i
  }

  /** Skipping passes over whitespace only, and stops on the first character that is not. */
  lemma {:induction false} SkipWsStops(json: seq<Unit>, i: nat)
    requires i <= |json|
    ensures var r := SkipWs(json, i);
            && (forall k :: i <= k < r ==> IsWhiteSpace(json[k]))
            && (r < |json| ==> !IsWhiteSpace(json[r]))
    decreases |json| - i
  {
    if i < |json| && IsWhiteSpace(json[i]) {
      SkipWsStops(json, i + 1);
    }
  }

  /** Skipping is idempotent: it stops on a character it would not skip. */
  lemma SkipWsIdempotent(json: seq<Unit>, i: nat)
    requires i <= |json|
    ensures SkipWs(json, SkipWs(json, i)) == SkipWs(json, i)
  {
    SkipWsStops(json, i);
  }

  /** `word` occurs in full at position `j`. */
  predicate LiteralAt(json: seq<Unit>, j: nat, word: seq<Unit>) {
    j + |word| <= |json| && json[j..j + |word|] == word
  }

  /**
   * The character at `j` begins a token: a quote, a number character, one of
   * the six punctuation characters, or the first letter of a literal whose
   * word is there in full.
   */
  predicate StartsToken(json: seq<Unit>, j: nat)
    requires j < |json|
  {
    var c := json[j];
    || c == Dquote || IsNumberStart(c)
    || c == Colon || c == Comma || c == BracketOpen || c == BracketClose || c == BraceOpen || c == BraceClose
    || (c == LowerT && LiteralAt(json, j, TrueWord))
    || (c == LowerF && LiteralAt(json, j, FalseWord))
    || (c == LowerN && LiteralAt(json, j, NullWord))
  }

  /** Tokens that stand for exactly one character of the text. */
  predicate IsOneCharToken(t: TokenType) {
    t in {String, Number, KeyDelim, ValueDelim, ArrayBegin, ArrayEnd, ObjectBegin, ObjectEnd}
  }

  /**
   * One step of the tokenizer from index `i`: the token kind and the index
   * after it. After the first letter of a literal the remaining letters are
   * tested one at a time; a literal whose letters are not all present is
   * `Unknown`, and `Unknown` leaves the index on the offending character.
   * `ScanTokenClassifies` states what the result means.
   */
  function ScanToken(json: seq<Unit>, i: nat): (r: (TokenType, nat))
    requires i <= |json|
    ensures r.0 != None && i <= r.1 <= |json|
    ensures Stalls(r.0) ==> r.1 == SkipWs(json, i)
    ensures !Stalls(r.0) ==> i < r.1
  {
    var j := SkipWs(json, i);
    if j == |json| then (End, j)
    else
      var c := json[j];
      // the characters left after the first one
      var left := |json| - (j + 1);
      if c == Dquote then (String, j + 1)
      else if c == Plus then (Number, j + 1)
      else if c == Comma then (ValueDelim, j + 1)
      else if c == Minus || c == Dot || IsDigit(c) then (Number, j + 1)
      else if c == Colon then (KeyDelim, j + 1)
      else if c == BracketOpen then (ArrayBegin, j + 1)
      else if c == BracketClose then (ArrayEnd, j + 1)
      else if c == LowerF && left >= 4 && json[j + 1] == LowerA && json[j + 2] == LowerL
              && json[j + 3] == LowerS && json[j + 4] == LowerE then (False, j + 5)
      else if c == LowerN && left >= 3 && json[j + 1] == LowerU && json[j + 2] == LowerL
              && json[j + 3] == LowerL then (Null, j + 4)
      else if c == LowerT && left >= 3 && json[j + 1] == LowerR && json[j + 2] == LowerU
              && json[j + 3] == LowerE then (True, j + 4)
      else if c == BraceOpen then (ObjectBegin, j + 1)
      else if c == BraceClose then (ObjectEnd, j + 1)
      else (Unknown, j)
  }

  /**
   * What a token means: `End` exactly when only whitespace is left; each
   * one-character token exactly when its character follows the whitespace;
   * a literal exactly when the whole word is there; `Unknown` exactly on a
   * character that starts no token, without moving past it.
   */
  lemma ScanTokenClassifies(json: seq<Unit>, i: nat)
    requires i <= |json|
    ensures var r := ScanToken(json, i);
            var j := SkipWs(json, i);
      && (r.0 == End <==> j == |json|)
      && (r.0 == End <==> forall k :: i <= k < |json| ==> IsWhiteSpace(json[k]))
      && (r.0 == Unknown <==> j < |json| && !StartsToken(json, j))
      && (r.0 == Unknown ==> r.1 == j < |json|)
      && (IsOneCharToken(r.0) ==> r.1 == j + 1)
      && (r.0 == String <==> j < |json| && json[j] == Dquote)
      && (r.0 == Number <==> j < |json| && IsNumberStart(json[j]))
      && (r.0 == KeyDelim <==> j < |json| && json[j] == Colon)
      && (r.0 == ValueDelim <==> j < |json| && json[j] == Comma)
      && (r.0 == ArrayBegin <==> j < |json| && json[j] == BracketOpen)
      && (r.0 == ArrayEnd <==> j < |json| && json[j] == BracketClose)
      && (r.0 == ObjectBegin <==> j < |json| && json[j] == BraceOpen)
      && (r.0 == ObjectEnd <==> j < |json| && json[j] == BraceClose)
      && (r.0 == True <==> j < |json| && json[j] == LowerT && LiteralAt(json, j, TrueWord))
      && (r.0 == False <==> j < |json| && json[j] == LowerF && LiteralAt(json, j, FalseWord))
      && (r.0 == Null <==> j < |json| && json[j] == LowerN && LiteralAt(json, j, NullWord))
      && (r.0 == True ==> r.1 == j + 4)
      && (r.0 == False ==> r.1 == j + 5)
      && (r.0 == Null ==> r.1 == j + 4)
  {
    SkipWsStops(json, i);
    var j := SkipWs(json, i);
    if j + 4 <= |json| {
      assert json[j..j + 4] == [json[j], json[j + 1], json[j + 2], json[j + 3]];
    }
    if j + 5 <= |json| {
      assert json[j..j + 5] == [json[j], json[j + 1], json[j + 2], json[j + 3], json[j + 4]];
    }
  }

  /** Scanning depends only on where whitespace skipping stops. */
  lemma ScanFromSkipped(json: seq<Unit>, i: nat)
    requires i <= |json|
    ensures ScanToken(json, SkipWs(json, i)) == ScanToken(json, i)
  {
    SkipWsIdempotent(json, i);
  }

  /** Discards the buffered token and touches nothing else. */
  function Flush(c: Cursor): (r: Cursor)
    ensures r.ahead == None && r.idx == c.idx && r.err == c.err
  {
    c.(ahead := None)
  }

  /** Records an error at the current index, replacing any earlier one. */
  function OnError(c: Cursor): (r: Cursor)
    ensures r.err == c.idx && r.idx == c.idx && r.ahead == c.ahead
  {
    c.(err := c.idx)
  }

  /**
   * Returns the buffered token if there is one; otherwise scans a token and
   * buffers it.
   */
  function Peek(json: seq<Unit>, c: Cursor): (r: (TokenType, Cursor))
    requires ValidCursor(json, c)
    ensures ValidCursor(json, r.1)
    ensures r.0 != None && r.1.ahead == r.0 && r.1.err == c.err && c.idx <= r.1.idx
    ensures c.ahead != None ==> r == (c.ahead, c)
    ensures c.ahead == None ==> (r.0, r.1.idx) == ScanToken(json, c.idx)
    ensures c.ahead == None && !Stalls(r.0) ==> c.idx < r.1.idx
  {
    if c.ahead != None then (c.ahead, c)
    else
      var (t, k) := ScanToken(json, c.idx);
      (t, c.(idx := k, ahead := t))
  }

  /** Returns and clears the buffered token, or scans a fresh one without buffering it. */
  function ReadToken(json: seq<Unit>, c: Cursor): (r: (TokenType, Cursor))
    requires ValidCursor(json, c)
    ensures ValidCursor(json, r.1)
    ensures r.0 != None && r.1.ahead == None && r.1.err == c.err && c.idx <= r.1.idx
  {
    if c.ahead != None then (c.ahead, Flush(c))
    else
      var (t, k) := ScanToken(json, c.idx);
      (t, c.(idx := k))
  }

  /** A second peek with nothing in between returns the same token and moves nothing. */
  lemma PeekIsIdempotent(json: seq<Unit>, c: Cursor)
    requires ValidCursor(json, c)
    ensures Peek(json, Peek(json, c).1) == Peek(json, c)
  {
  }

  /**
   * Reading after a peek returns the buffered token, empties the buffer and
   * leaves the index where the peek put it; so peeking first changes nothing
   * about what a read returns.
   */
  lemma ReadAfterPeek(json: seq<Unit>, c: Cursor)
    requires ValidCursor(json, c)
    ensures var (t, p) := Peek(json, c);
            ReadToken(json, p) == (t, p.(ahead := None))
    ensures ReadToken(json, Peek(json, c).1) == ReadToken(json, c)
  {
  }

  /**
   * The stalling tokens are sticky: after a peek that returned `End` or
   * `Unknown`, flushing and peeking again returns the same token at the same
   * index.
   */
  lemma {:induction false} StallRepeats(json: seq<Unit>, c: Cursor)
    requires ValidCursor(json, c) && c.ahead == None
    requires Stalls(Peek(json, c).0)
    ensures var (t, p) := Peek(json, c);
            Peek(json, Flush(p)) == (t, p)
  {
    var (t, p) := Peek(json, c);
    ScanFromSkipped(json, c.idx);
    assert p.idx == SkipWs(json, c.idx);
  }
}
