/**
 * The JSON reader itself (src/ntojs/JsonReader.cs): a class whose fields are
 * the cursor `idx`, the one-token lookahead `readAhead`, the error index
 * `errorIdx` and the string accumulator `sb`, and whose methods update them
 * step by step. Every method is proved to leave the fields as the matching
 * function of `Scanner` or `ReaderSpec` says, and the trees of JsonArray and
 * JsonObject objects it builds are proved to denote the pure `Tree` those
 * functions return.
 */
module Reader {
  import opened Chars
  import opened Scanner
  import opened ReaderSpec
  import opened Containers

  /**
   * `v` is the object graph for the pure tree `t`, and every container it
   * uses lies in `fp`. Each container stands at one position only: it is not
   * inside any of its own elements or fields, and no two of those share a
   * container. The relation follows `t`, so it needs no assumption that the
   * graph is acyclic.
   */
  ghost predicate Denotes(v: Value, t: Tree, fp: set<object>)
    reads fp
    decreases t, 1
  {
    match t
    case TNull => v.Null?
    case TText(s) => v == Text(s)
    case TArr(ts) =>
      && v.Arr? && v.a in fp && ElementsDenote(v.a.items, ts, fp)
      && forall j :: 0 <= j < |ts| ==> v.a !in Parts(v.a.items[j], ts[j], fp)
    case TObj(m) =>
      && v.Obj? && v.o in fp && FieldsDenote(v.o.entries, m, fp)
      && forall k :: k in m ==> v.o !in Parts(v.o.entries[k], m[k], fp)
  }

  /** Each element denotes the tree at the same position, and no two elements share a container. */
  ghost predicate ElementsDenote(items: seq<Value>, trees: seq<Tree>, fp: set<object>)
    reads fp
    decreases TArr(trees), 0
  {
    && |items| == |trees|
    && (forall j :: 0 <= j < |trees| ==> Denotes(items[j], trees[j], fp))
    && forall i, j :: 0 <= i < j < |trees| ==> Parts(items[i], trees[i], fp) !! Parts(items[j], trees[j], fp)
  }

  /** Each key's value denotes the tree under the same key, and no two values share a container. */
  ghost predicate FieldsDenote(entries: map<seq<Unit>, Value>, fields: map<seq<Unit>, Tree>, fp: set<object>)
    reads fp
    decreases TObj(fields), 0
  {
    && entries.Keys == fields.Keys
    && (forall k :: k in fields ==> Denotes(entries[k], fields[k], fp))
    && forall k1, k2 :: k1 in fields && k2 in fields && k1 != k2 ==>
         Parts(entries[k1], fields[k1], fp) !! Parts(entries[k2], fields[k2], fp)
  }

  /** The containers that stand at the positions of `t` in the graph of `v`. */
  ghost function Parts(v: Value, t: Tree, fp: set<object>): (r: set<object>)
    reads fp
    ensures r <= fp
    decreases t
  {
    match t
    case TArr(ts) =>
      if v.Arr? && v.a in fp && |v.a.items| == |ts| then
        {v.a} + set j, o | 0 <= j < |ts| && o in Parts(v.a.items[j], ts[j], fp) :: o
      else {}
    case TObj(m) =>
      if v.Obj? && v.o in fp && v.o.entries.Keys == m.Keys then
        {v.o} + set k, o | k in m && o in Parts(v.o.entries[k], m[k], fp) :: o
      else {}
    case _ => {}
  }

  /** A larger footprint finds the same containers in a denoting value. */
  lemma {:induction false} PartsGrow(v: Value, t: Tree, fp: set<object>, fp2: set<object>)
    requires fp <= fp2 && Denotes(v, t, fp)
    ensures Parts(v, t, fp2) == Parts(v, t, fp)
    decreases t
  {
    match t
    case TNull =>
    case TText(_) =>
    case TArr(ts) =>
      forall j | 0 <= j < |ts|
        ensures Parts(v.a.items[j], ts[j], fp2) == Parts(v.a.items[j], ts[j], fp)
      {
        PartsGrow(v.a.items[j], ts[j], fp, fp2);
      }
    case TObj(m) =>
      forall k | k in m
        ensures Parts(v.o.entries[k], m[k], fp2) == Parts(v.o.entries[k], m[k], fp)
      {
        PartsGrow(v.o.entries[k], m[k], fp, fp2);
      }
  }

  /** The container a value is, if it is one. */
  function ContainerOf(v: Value): set<object> {
    match v
    case Arr(a) => {a}
    case Obj(o) => {o}
    case _ => {}
  }

  /**
   * In a denoting array no container stands at two positions: the elements
   * that are containers are distinct objects, and none of them is the array
   * itself, so adding to one nested container changes no other.
   */
  lemma ElementsAreDistinct(a: JsonArray, ts: seq<Tree>, fp: set<object>)
    requires Denotes(Arr(a), TArr(ts), fp)
    ensures |a.items| == |ts|
    ensures forall i, j :: 0 <= i < j < |ts| ==> ContainerOf(a.items[i]) !! ContainerOf(a.items[j])
    ensures forall j :: 0 <= j < |ts| ==> a !in ContainerOf(a.items[j])
  {
    forall j | 0 <= j < |ts|
      ensures ContainerOf(a.items[j]) <= Parts(a.items[j], ts[j], fp)
    {
      ContainerIsPart(a.items[j], ts[j], fp);
    }
  }

  /** Likewise for the values of a denoting object. */
  lemma FieldsAreDistinct(o: JsonObject, m: map<seq<Unit>, Tree>, fp: set<object>)
    requires Denotes(Obj(o), TObj(m), fp)
    ensures o.entries.Keys == m.Keys
    ensures forall k1, k2 :: k1 in m && k2 in m && k1 != k2 ==>
              ContainerOf(o.entries[k1]) !! ContainerOf(o.entries[k2])
    ensures forall k :: k in m ==> o !in ContainerOf(o.entries[k])
  {
    forall k | k in m
      ensures ContainerOf(o.entries[k]) <= Parts(o.entries[k], m[k], fp)
    {
      ContainerIsPart(o.entries[k], m[k], fp);
    }
  }

  /** A denoting value that is a container is among its own parts. */
  lemma ContainerIsPart(v: Value, t: Tree, fp: set<object>)
    requires Denotes(v, t, fp)
    ensures ContainerOf(v) <= Parts(v, t, fp)
  {
  }

  /** One empty array added twice to another does not denote two empty arrays. */
  lemma SharedArrayDoesNotDenote(outer: JsonArray, e: JsonArray, fp: set<object>)
    requires outer.items == [Arr(e), Arr(e)]
    ensures !Denotes(Arr(outer), TArr([TArr([]), TArr([])]), fp)
  {
    assert ContainerOf(outer.items[0]) == ContainerOf(outer.items[1]) == {e};
    if Denotes(Arr(outer), TArr([TArr([]), TArr([])]), fp) {
      ElementsAreDistinct(outer, [TArr([]), TArr([])], fp);
    }
  }

  /** A larger footprint denotes the same tree. */
  lemma {:induction false} DenotesGrow(v: Value, t: Tree, fp: set<object>, fp2: set<object>)
    requires fp <= fp2 && Denotes(v, t, fp)
    ensures Denotes(v, t, fp2)
    decreases t
  {
    match t
    case TNull =>
    case TText(_) =>
    case TArr(ts) =>
      forall j | 0 <= j < |ts|
        ensures Denotes(v.a.items[j], ts[j], fp2)
        ensures Parts(v.a.items[j], ts[j], fp2) == Parts(v.a.items[j], ts[j], fp)
      {
        DenotesGrow(v.a.items[j], ts[j], fp, fp2);
        PartsGrow(v.a.items[j], ts[j], fp, fp2);
      }
    case TObj(m) =>
      forall k | k in m
        ensures Denotes(v.o.entries[k], m[k], fp2)
        ensures Parts(v.o.entries[k], m[k], fp2) == Parts(v.o.entries[k], m[k], fp)
      {
        DenotesGrow(v.o.entries[k], m[k], fp, fp2);
        PartsGrow(v.o.entries[k], m[k], fp, fp2);
      }
  }

  /**
   * The object reader's loop, resumed at `c` with `fields` read, ends as `goal`.
   * This only names `ParseObject` at a point of the loop; it is no second definition.
   */
  ghost predicate ObjectResumes(json: seq<Unit>, c: Cursor, fields: map<seq<Unit>, Tree>, goal: (Outcome<Tree>, Cursor)) {
    ValidCursor(json, c) && c.ahead == Scanner.None && ParseObject(json, c, fields) == goal
  }

  /**
   * The array reader's loop, resumed at `c` with `trees` read, ends as `goal`.
   * This only names `ParseArray` at a point of the loop; it is no second definition.
   */
  ghost predicate ArrayResumes(json: seq<Unit>, c: Cursor, trees: seq<Tree>, goal: (Outcome<Tree>, Cursor)) {
    ValidCursor(json, c) && c.ahead == Scanner.None && ParseArray(json, c, trees) == goal
  }

  /**
   * The array reader's loop from `c` with `trees` read: its outcome and the cursor after it.
   * `ParseArray` under another name, so that a caller's proof unfolds it one level only.
   */
  ghost function ArrayFrom(json: seq<Unit>, c: Cursor, trees: seq<Tree>): (r: (Outcome<Tree>, Cursor))
    requires ValidCursor(json, c) && c.ahead == Scanner.None
  {
    ParseArray(json, c, trees)
  }

  /**
   * The object reader's loop from `c` with `fields` read: its outcome and the cursor after it.
   * `ParseObject` under another name, so that a caller's proof unfolds it one level only.
   */
  ghost function ObjectFrom(json: seq<Unit>, c: Cursor, fields: map<seq<Unit>, Tree>): (r: (Outcome<Tree>, Cursor))
    requires ValidCursor(json, c) && c.ahead == Scanner.None
  {
    ParseObject(json, c, fields)
  }

  /** The imperative outcome matches the pure one. */
  ghost predicate Realizes(r: Outcome<Value>, s: Outcome<Tree>, fp: set<object>)
    reads fp
  {
    match s
    case Done(t) => r.Done? && Denotes(r.value, t, fp)
    case Crash => r.Crash?
    case Hang => r.Hang?
  }

  /**
   * Appending a value and its tree keeps the elements in step, provided the
   * new value's containers are none of the earlier elements'.
   */
  lemma AppendDenotes(items: seq<Value>, trees: seq<Tree>, fp: set<object>,
                      v: Value, t: Tree, vfp: set<object>)
    requires ElementsDenote(items, trees, fp) && Denotes(v, t, vfp) && fp !! vfp
    ensures ElementsDenote(items + [v], trees + [t], fp + vfp)
  {
    forall j | 0 <= j < |trees|
      ensures Denotes(items[j], trees[j], fp + vfp)
      ensures Parts(items[j], trees[j], fp + vfp) == Parts(items[j], trees[j], fp)
    {
      DenotesGrow(items[j], trees[j], fp, fp + vfp);
      PartsGrow(items[j], trees[j], fp, fp + vfp);
    }
    DenotesGrow(v, t, vfp, fp + vfp);
    PartsGrow(v, t, vfp, fp + vfp);
  }

  /**
   * Adding a key with its value and tree keeps the fields in step, provided
   * the new value's containers are none of the other values'.
   */
  lemma InsertDenotes(entries: map<seq<Unit>, Value>, fields: map<seq<Unit>, Tree>, fp: set<object>,
                      key: seq<Unit>, v: Value, t: Tree, vfp: set<object>)
    requires FieldsDenote(entries, fields, fp) && Denotes(v, t, vfp) && fp !! vfp
    ensures FieldsDenote(entries[key := v], fields[key := t], fp + vfp)
  {
    forall k | k in fields
      ensures Denotes(entries[k], fields[k], fp + vfp)
      ensures Parts(entries[k], fields[k], fp + vfp) == Parts(entries[k], fields[k], fp)
    {
      DenotesGrow(entries[k], fields[k], fp, fp + vfp);
      PartsGrow(entries[k], fields[k], fp, fp + vfp);
    }
    DenotesGrow(v, t, vfp, fp + vfp);
    PartsGrow(v, t, vfp, fp + vfp);
  }

  const HexDigits: seq<nat> := [10, 11, 12, 13, 14, 15]

  /** The range of a C# `uint`: arithmetic on it wraps around. */
  const UintModulus: int := 0x1_0000_0000

  /** Adding whole multiples of 2^32 does not change a `uint`. */
  lemma {:induction false} ShiftByWrap(a: int, k: nat)
    ensures (a + k * UintModulus) % UintModulus == a % UintModulus
  {
    if k > 0 {
      ShiftByWrap(a, k - 1);
      assert a + k * UintModulus == (a + (k - 1) * UintModulus) + UintModulus;
    }
  }

  /** Adding whole multiples of 2^16 does not change a `char`. */
  lemma {:induction false} ShiftByUnit(a: int, k: nat)
    ensures (a + k * 0x1_0000) % 0x1_0000 == a % 0x1_0000
  {
    if k > 0 {
      ShiftByUnit(a, k - 1);
      assert a + k * 0x1_0000 == (a + (k - 1) * 0x1_0000) + 0x1_0000;
    }
  }

  /** Wrapping before each shift-and-add step gives the wrapped exact result. */
  lemma WrapStep(x: nat, d: nat)
    ensures ((x % UintModulus) * 16 + d) % UintModulus == (x * 16 + d) % UintModulus
  {
    var q := x / UintModulus;
    assert x * 16 + d == ((x % UintModulus) * 16 + d) + (q * 16) * UintModulus;
    ShiftByWrap((x % UintModulus) * 16 + d, q * 16);
  }

  /** Narrowing a wrapped `uint` to a `char` keeps the low 16 bits of the exact value. */
  lemma Narrow(x: nat)
    ensures (x % UintModulus) % 0x1_0000 == x % 0x1_0000
  {
    var q := x / UintModulus;
    assert x == x % UintModulus + (q * 0x1_0000) * 0x1_0000;
    ShiftByUnit(x % UintModulus, q * 0x1_0000);
  }

  /**
   * One step of the decoding loop, in `uint` arithmetic: a digit shifts the
   * wrapped total and adds its value; anything else leaves the total alone.
   */
  lemma DecodeStep(n: int, s: seq<Unit>, c: Unit)
    requires n == HexFold(s) % UintModulus
    ensures (if IsHexDigit(c) then (n * 16 + HexDigitValue(c)) % UintModulus else n) == HexFold(s + [c]) % UintModulus
  {
    HexFoldSnoc(s, c);
    if IsHexDigit(c) {
      WrapStep(HexFold(s), HexDigitValue(c));
    }
  }

  /**
   * The decoding of a string body from `i`: `ReaderSpec.ScanString` under another
   * name, so that a caller's proof unfolds it one level only.
   */
  ghost function BodyFrom(json: seq<Unit>, i: nat): StringScan
    requires i <= |json|
  {
    ScanString(json, i)
  }

  /** A `\u` escape with four characters after it stands for the unit the decoder gives. */
  lemma UnicodeEscapeStep(json: seq<Unit>, j: nat, c2: Unit)
    requires j + 1 + UnicodeEscapeLen <= |json| && json[j] == LowerU
    requires c2 as int == HexFold(json[j + 1..j + 1 + UnicodeEscapeLen]) % 0x1_0000
    ensures EscapePiece(json, j) == ([c2], j + 1 + UnicodeEscapeLen)
  {
    var digits := json[j + 1..j + 1 + UnicodeEscapeLen];
    HexFoldOfFour(digits);
    assert digits[0] == json[j + 1] && digits[1] == json[j + 2] && digits[2] == json[j + 3] && digits[3] == json[j + 4];
  }

  /** A decoding result with `p` in front of its text. */
  function Prepend(p: seq<Unit>, r: StringScan): StringScan {
    r.(text := p + r.text)
  }

  class JsonReader {
    /** The text being read; empty when the source string is null. */
    const json: seq<Unit>
    /** The source string is null. */
    const isNull: bool

    var idx: nat
    var readAhead: TokenType
    var errorIdx: int
    /** Scratch buffer for decoded string pieces; each string read clears it first. */
    var sb: seq<Unit>

    function State(): Cursor
      reads this
    {
      Cursor(idx, readAhead, errorIdx)
    }

    ghost predicate Valid()
      reads this
    {
      ValidCursor(json, State()) && (isNull ==> json == [])
    }

    /** A reader at index 0 with nothing buffered and no error; `None` is a null string. */
    constructor (source: Option<seq<Unit>>)
      ensures Valid()
      ensures isNull == source.None?
      ensures json == (if source.Some? then source.value else [])
      ensures State() == Initial && sb == []
    {
      json := if source.Some? then source.value else [];
      isNull := source.None?;
      idx := 0;
      readAhead := TokenType.None;
      errorIdx := -1;
      sb := [];
    }

    // -------------------------------------------------------------------
    // Tokenizer
    // -------------------------------------------------------------------

    method Flush()
      requires Valid()
      modifies this`readAhead
      ensures Valid()
      ensures State() == Scanner.Flush(old(State()))
    {
      readAhead := TokenType.None;
    }

    method Peek() returns (t: TokenType)
      requires Valid()
      modifies this`idx, this`readAhead
      ensures Valid()
      ensures (t, State()) == Scanner.Peek(json, old(State()))
      ensures old(idx) <= idx && errorIdx == old(errorIdx) && readAhead == t
      ensures old(readAhead) == TokenType.None && !Stalls(t) ==> old(idx) < idx
    {
      if readAhead != TokenType.None {
        return readAhead;
      }
      readAhead := ReadTokenCore();
      return readAhead;
    }

    method ReadToken() returns (t: TokenType)
      requires Valid()
      modifies this`idx, this`readAhead
      ensures Valid()
      ensures (t, State()) == Scanner.ReadToken(json, old(State()))
      ensures old(idx) <= idx && errorIdx == old(errorIdx) && readAhead == TokenType.None
      ensures old(readAhead) == TokenType.None && !Stalls(t) ==> old(idx) < idx
    {
      if readAhead != TokenType.None {
        var n := readAhead;
        readAhead := TokenType.None;
        return n;
      }
      t := ReadTokenCore();
    }

    method ReadTokenCore() returns (t: TokenType)
      requires Valid()
      modifies this`idx
      ensures Valid()
      ensures (t, idx) == ScanToken(json, old(idx))
    {
      idx := SkipWhiteSpace(json, idx);
      if idx == |json| {
        return End;
      }
      var c := json[idx];
      idx := idx + 1;
      if c == Dquote {
        return String;
      } else if c == Plus {
        return Number;
      } else if c == Comma {
        return ValueDelim;
      } else if c == Minus || c == Dot || IsDigit(c) {
        return Number;
      } else if c == Colon {
        return KeyDelim;
      } else if c == BracketOpen {
        return ArrayBegin;
      } else if c == BracketClose {
        return ArrayEnd;
      } else if c == LowerF {
        if QueueCount() >= 4 && json[idx] == LowerA && json[idx + 1] == LowerL
          && json[idx + 2] == LowerS && json[idx + 3] == LowerE
        {
          idx := idx + 4;
          return False;
        }
      } else if c == LowerN {
        if QueueCount() >= 3 && json[idx] == LowerU && json[idx + 1] == LowerL
          && json[idx + 2] == LowerL
        {
          idx := idx + 3;
          return TokenType.Null;
        }
      } else if c == LowerT {
        if QueueCount() >= 3 && json[idx] == LowerR && json[idx + 1] == LowerU
          && json[idx + 2] == LowerE
        {
          idx := idx + 3;
          return True;
        }
      } else if c == BraceOpen {
        return ObjectBegin;
      } else if c == BraceClose {
        return ObjectEnd;
      }
      idx := idx - 1;
      return Unknown;
    }

    /**
     * The least index at or after `startIndex` that is the end of the text
     * or holds a character other than space, tab..carriage return or U+00A0.
     */
    static method SkipWhiteSpace(json: seq<Unit>, startIndex: nat) returns (r: nat)
      requires startIndex <= |json|
      ensures r == SkipWs(json, startIndex)
      ensures startIndex <= r <= |json|
      ensures forall k :: startIndex <= k < r ==> IsWhiteSpace(json[k])
      ensures r < |json| ==> !IsWhiteSpace(json[r])
    {
      SkipWsStops(json, startIndex);
      r := startIndex;
      while r < |json|
        invariant startIndex <= r
        invariant SkipWs(json, r) == SkipWs(json, startIndex)
        decreases |json| - r
      {
        var c := json[r];
        if !(c == Space || (c >= Tab && c <= Return) || c == Nbsp) {
          return;
        }
        r := r + 1;
      }
    }

    /** The number of characters after the cursor. */
    function QueueCount(): (n: int)
      reads this
      requires Valid()
      ensures 0 <= n && idx + n == |json|
    {
      |json| - idx
    }

    // -------------------------------------------------------------------
    // Readers
    // -------------------------------------------------------------------

    /** The public entry point. */
    method Read() returns (r: Outcome<Value>, ghost fp: set<object>)
      requires Valid()
      modifies this
      ensures Valid() && fresh(fp)
      ensures State() == ReaderSpec.Read(json, isNull, old(State())).1
      ensures Realizes(r, ReaderSpec.Read(json, isNull, old(State())).0, fp)
    {
      fp := {};
      if isNull || |json| == 0 {
        return Done(Value.Null), fp;
      }
      var t := Peek();
      if t == TokenType.None || t == End || t == Unknown {
        return Done(Value.Null), fp;
      }
      r, fp := ReadValue();
    }

    method ReadArray() returns (r: Outcome<Value>, ghost fp: set<object>)
      requires Valid() && readAhead == TokenType.None
      modifies this
      decreases |json| - idx, 1
      ensures Valid() && fresh(fp)
      ensures State() == ParseArray(json, old(State()), []).1
      ensures Realizes(r, ParseArray(json, old(State()), []).0, fp)
      ensures old(idx) <= idx
    {
      ghost var goal := ParseArray(json, State(), []);
      var list := new JsonArray();
      ghost var trees: seq<Tree> := [];
      ghost var all: set<object> := {};
      while true
        invariant Valid() && readAhead == TokenType.None && old(idx) <= idx
        invariant fresh(list) && fresh(all) && list !in all
        invariant ElementsDenote(list.items, trees, all)
        invariant ArrayResumes(json, State(), trees, goal)
        decreases |json| - idx
      {
        var stop;
        stop, r, fp, trees, all := ReadArrayTurn(list, trees, all);
        if stop {
          return;
        }
      }
    }

    /**
     * One turn of the array reader's loop: peeks a token, then skips a comma,
     * ends the array (`stop`), or reads an element and appends it.
     */
    method ReadArrayTurn(list: JsonArray, ghost trees: seq<Tree>, ghost all: set<object>)
      returns (stop: bool, r: Outcome<Value>, ghost fp: set<object>,
               ghost trees2: seq<Tree>, ghost all2: set<object>)
      requires Valid() && readAhead == TokenType.None
      requires this !in all && list !in all && ElementsDenote(list.items, trees, all)
      modifies this, list
      decreases |json| - idx, 0
      ensures Valid() && old(idx) <= idx
      ensures all <= all2 && fresh(all2 - all) && list !in all2
      ensures var pa := ArrayFrom(json, old(State()), trees);
              && (!stop ==> old(idx) < idx && ArrayResumes(json, State(), trees2, pa))
              && (stop ==> State() == pa.1 && Realizes(r, pa.0, fp) && fp <= {list} + all2)
      ensures !stop ==> ElementsDenote(list.items, trees2, all2)
    {
      var t := Peek();
      trees2, all2 := trees, all;
      if t == ValueDelim {
        Flush();
        return false, Done(Value.Null), {}, trees2, all2;
      } else if t == ArrayEnd {
        Flush();
        fp := FinishArray(list, trees, all);
        return true, Done(Arr(list)), fp, trees2, all2;
      } else if t == End || t == Unknown {
        // The source loops here forever; see ReaderSpec.ArrayStalls.
        return true, Hang, {}, trees2, all2;
      } else {
        var v;
        v, trees2, all2 := ReadElement(list, trees, all);
        if !v.Done? {
          return true, v, {}, trees, all;
        }
        return false, Done(Value.Null), {}, trees2, all2;
      }
    }

    /** The footprint of a finished array: it and everything its elements use. */
    static lemma FinishArray(list: JsonArray, trees: seq<Tree>, all: set<object>) returns (fp: set<object>)
      requires ElementsDenote(list.items, trees, all) && list !in all
      ensures fp == {list} + all
      ensures Denotes(Arr(list), TArr(trees), fp)
    {
      fp := {list} + all;
      forall j | 0 <= j < |trees|
        ensures Denotes(list.items[j], trees[j], fp)
        ensures Parts(list.items[j], trees[j], fp) == Parts(list.items[j], trees[j], all)
      {
        DenotesGrow(list.items[j], trees[j], all, fp);
        PartsGrow(list.items[j], trees[j], all, fp);
      }
    }

    /**
     * The element case of the array reader's loop: reads a value, with its
     * first token already buffered, and appends it to `list`.
     */
    method ReadElement(list: JsonArray, ghost trees: seq<Tree>, ghost all: set<object>)
      returns (v: Outcome<Value>, ghost trees2: seq<Tree>, ghost all2: set<object>)
      requires Valid() && this !in all && list !in all && ElementsDenote(list.items, trees, all)
      modifies this, list
      decreases |json| - idx, 3
      ensures Valid() && old(idx) <= idx
      ensures var (pv, after) := ParseValue(json, old(State()));
              && State() == after
              && (v.Done? <==> pv.Done?)
              && (!v.Done? ==> Realizes(v, pv, {}))
              && (v.Done? ==> trees2 == trees + [pv.value] && readAhead == TokenType.None)
      ensures v.Done? ==>
                && all <= all2 && fresh(all2 - all) && list !in all2
                && ElementsDenote(list.items, trees2, all2)
    {
      ghost var before := State();
      ghost var vfp;
      v, vfp := ReadValue();
      if !v.Done? {
        return v, trees, all;
      }
      ghost var tree := ParseValue(json, before).0.value;
      AppendDenotes(list.items, trees, all, v.value, tree, vfp);
      var _ := list.Add(v.value);
      trees2 := trees + [tree];
      all2 := all + vfp;
    }

    /**
     * The number reader, entered just after the number's first character;
     * see `ReaderSpec.ReadNumber`.
     */
    method ReadNumber() returns (r: Outcome<seq<Unit>>)
      requires Valid() && 1 <= idx
      modifies this`idx, this`errorIdx
      ensures Valid()
      ensures (r, State()) == ReaderSpec.ReadNumber(json, old(State()))
    {
      var start := idx - 1;
      while true
        invariant Valid() && old(idx) <= idx
        invariant errorIdx == old(errorIdx)
        invariant old(idx) < idx ==> idx < |json|
        invariant NumberEnd(json, idx) == NumberEnd(json, old(idx))
        decreases |json| - idx
      {
        if idx == |json| {
          // The character read next lies past the end: the source throws.
          return Crash;
        }
        var c := json[idx];
        if (c >= Digit0 && c <= Digit9) || c == Dot || c == Minus || c == Plus || c == LowerE || c == UpperE {
          idx := idx + 1;
          if idx == |json| {
            OnError();
            break;
          }
          continue;
        }
        break;
      }
      r := Done(json[start..idx]);
    }

    method ReadObject() returns (r: Outcome<Value>, ghost fp: set<object>)
      requires Valid() && readAhead == TokenType.None
      modifies this
      decreases |json| - idx, 1
      ensures Valid() && fresh(fp)
      ensures State() == ParseObject(json, old(State()), map[]).1
      ensures Realizes(r, ParseObject(json, old(State()), map[]).0, fp)
      ensures old(idx) <= idx
    {
      ghost var goal := ParseObject(json, State(), map[]);
      var newObj := new JsonObject();
      ghost var fields: map<seq<Unit>, Tree> := map[];
      ghost var all: set<object> := {};
      while true
        invariant Valid() && readAhead == TokenType.None && old(idx) <= idx
        invariant fresh(newObj) && fresh(all) && newObj !in all
        invariant FieldsDenote(newObj.entries, fields, all)
        invariant ObjectResumes(json, State(), fields, goal)
        decreases |json| - idx
      {
        var stop;
        stop, r, fp, fields, all := ReadObjectTurn(newObj, fields, all);
        if stop {
          return;
        }
      }
    }

    /**
     * One turn of the object reader's loop: peeks and discards a token, then
     * skips a comma, reads a key and its value, or ends the object (`stop`).
     */
    method ReadObjectTurn(newObj: JsonObject, ghost fields: map<seq<Unit>, Tree>, ghost all: set<object>)
      returns (stop: bool, r: Outcome<Value>, ghost fp: set<object>,
               ghost fields2: map<seq<Unit>, Tree>, ghost all2: set<object>)
      requires Valid() && readAhead == TokenType.None
      requires this !in all && newObj !in all && FieldsDenote(newObj.entries, fields, all)
      modifies this, newObj
      decreases |json| - idx, 0
      ensures Valid() && old(idx) <= idx
      ensures all <= all2 && fresh(all2 - all) && newObj !in all2
      ensures var po := ObjectFrom(json, old(State()), fields);
              && (!stop ==> old(idx) < idx && ObjectResumes(json, State(), fields2, po))
              && (stop ==> State() == po.1 && Realizes(r, po.0, fp) && fp <= {newObj} + all2)
      ensures !stop ==> FieldsDenote(newObj.entries, fields2, all2)
    {
      var t := Peek();
      Flush();
      fields2, all2 := fields, all;
      if t == ValueDelim {
        return false, Done(Value.Null), {}, fields2, all2;
      } else if t == ObjectEnd {
        fp := Finish(newObj, fields, all);
        return true, Done(Obj(newObj)), fp, fields2, all2;
      } else if t == String {
        ghost var f := State();
        var colon, v;
        colon, v, fields2, all2 := ReadMember(newObj, fields, all);
        ghost var pk := ParseObjectKey(json, f, fields);
        if !colon {
          OnError();
          fp := Finish(newObj, fields2, all2);
          return true, Done(Obj(newObj)), fp, fields2, all2;
        }
        if !v.Done? {
          return true, v, {}, fields2, all2;
        }
        return false, Done(Value.Null), {}, fields2, all2;
      } else {
        OnError();
        fp := Finish(newObj, fields, all);
        return true, Done(Obj(newObj)), fp, fields2, all2;
      }
    }

    /**
     * The `String` case of the object reader's switch: reads the key, then
     * a token that must be `:`, then the value, and adds the key and value
     * to `newObj`. Without the colon it stops after that token, leaving the
     * error to the caller; a key already present makes the source's
     * dictionary throw.
     */
    method ReadMember(newObj: JsonObject, ghost fields: map<seq<Unit>, Tree>, ghost all: set<object>)
      returns (colon: bool, v: Outcome<Value>, ghost fields2: map<seq<Unit>, Tree>, ghost all2: set<object>)
      requires Valid() && readAhead == TokenType.None
      requires this !in all && newObj !in all && FieldsDenote(newObj.entries, fields, all)
      modifies this, newObj
      decreases |json| - idx, 3
      ensures Valid() && old(idx) <= idx
      ensures var mb := ParseMember(json, old(State()));
              && colon == mb.colon && State() == mb.after
              && (colon && !mb.value.Done? ==> Realizes(v, mb.value, {}))
              && (colon && mb.value.Done? && mb.key in fields ==> v == Crash)
              && (v.Done? <==> !colon || (mb.value.Done? && mb.key !in fields))
              && (colon && v.Done? ==> fields2 == fields[mb.key := mb.value.value])
              && (!colon ==> fields2 == fields)
      ensures all <= all2 && fresh(all2 - all) && newObj !in all2
      ensures v.Done? ==> FieldsDenote(newObj.entries, fields2, all2)
    {
      ghost var f := State();
      var key := ReadString();
      var t2 := ReadToken();
      if t2 != KeyDelim {
        return false, Done(Value.Null), fields, all;
      }
      colon := true;
      v, fields2, all2 := ReadMemberValue(newObj, key, fields, all);
    }

    /**
     * The value half of `ReadMember`, entered just past the colon: reads the
     * value and adds it under `key`, unless `key` is already present, which
     * makes the source's dictionary throw.
     */
    method ReadMemberValue(newObj: JsonObject, key: seq<Unit>, ghost fields: map<seq<Unit>, Tree>, ghost all: set<object>)
      returns (v: Outcome<Value>, ghost fields2: map<seq<Unit>, Tree>, ghost all2: set<object>)
      requires Valid()
      requires this !in all && newObj !in all && FieldsDenote(newObj.entries, fields, all)
      modifies this, newObj
      decreases |json| - idx, 3
      ensures Valid() && old(idx) <= idx
      ensures var (pv, after) := ParseValue(json, old(State()));
              && State() == after
              && (!pv.Done? ==> Realizes(v, pv, {}))
              && (pv.Done? && key in fields ==> v == Crash)
              && (v.Done? <==> pv.Done? && key !in fields)
              && (v.Done? ==> fields2 == fields[key := pv.value])
      ensures all <= all2 && fresh(all2 - all) && newObj !in all2
      ensures v.Done? ==> FieldsDenote(newObj.entries, fields2, all2)
    {
      fields2, all2 := fields, all;
      ghost var before := State();
      ghost var vfp;
      v, vfp := ReadValue();
      if !v.Done? {
        return;
      }
      ghost var tree := ParseValue(json, before).0.value;
      if key in newObj.entries {
        // A repeated key: the source's dictionary throws.
        return Crash, fields, all;
      }
      InsertDenotes(newObj.entries, fields, all, key, v.value, tree, vfp);
      var _, _ := newObj.Add(key, v.value);
      fields2 := fields[key := tree];
      all2 := all + vfp;
    }

    /** The footprint of a finished object: it and everything its values use. */
    static lemma Finish(newObj: JsonObject, fields: map<seq<Unit>, Tree>, all: set<object>)
      returns (fp: set<object>)
      requires FieldsDenote(newObj.entries, fields, all) && newObj !in all
      ensures fp == {newObj} + all
      ensures Denotes(Obj(newObj), TObj(fields), fp)
    {
      fp := {newObj} + all;
      forall k | k in fields
        ensures Denotes(newObj.entries[k], fields[k], fp)
        ensures Parts(newObj.entries[k], fields[k], fp) == Parts(newObj.entries[k], fields[k], all)
      {
        DenotesGrow(newObj.entries[k], fields[k], all, fp);
        PartsGrow(newObj.entries[k], fields[k], all, fp);
      }
    }

    /**
     * The string reader, entered just past the opening quote; see
     * `ReaderSpec.ReadString`. It copies runs of plain characters in one
     * piece and decodes escapes into `sb`.
     */
    method ReadString() returns (s: seq<Unit>)
      requires Valid()
      modifies this`idx, this`errorIdx, this`sb
      ensures Valid()
      ensures (s, State()) == ReaderSpec.ReadString(json, old(State()))
      ensures old(idx) <= idx && readAhead == old(readAhead)
    {
      ghost var start := State();
      ghost var goal := BodyFrom(json, start.idx);
      sb := [];
      var startIdx: int := -1;
      while idx < |json|
        invariant Valid() && start.idx <= idx && State() == start.(idx := idx)
        invariant startIdx == -1 || 0 <= startIdx < idx
        invariant Resume(json, sb, startIdx, idx) == goal
        decreases |json| - idx
      {
        var closed;
        startIdx, closed := ReadStringPiece(startIdx);
        if closed {
          s := CloseString(startIdx, start, goal);
          return;
        }
      }
      s := CutString(startIdx, start, goal);
    }

    /** The string reader's exit at the closing quote, just past it. */
    method CloseString(startIdx: int, ghost start: Cursor, ghost goal: StringScan) returns (s: seq<Unit>)
      requires Valid() && ValidCursor(json, start) && start.idx < idx && State() == start.(idx := idx)
      requires startIdx == -1 || 0 <= startIdx < idx
      requires goal == BodyFrom(json, start.idx)
      requires goal == StringScan(sb + (if startIdx == -1 then [] else json[startIdx..idx - 1]), idx, true, false)
      modifies this`sb
      ensures (s, State()) == ReaderSpec.ReadString(json, start)
    {
      ClosedString(json, start, goal);
      s := ReadStringEnd(startIdx);
    }

    /** The string reader's exit at the end of the text: an error, then the text so far. */
    method CutString(startIdx: int, ghost start: Cursor, ghost goal: StringScan) returns (s: seq<Unit>)
      requires Valid() && ValidCursor(json, start) && start.idx <= idx == |json| && State() == start.(idx := idx)
      requires startIdx == -1 || 0 <= startIdx < idx
      requires goal == BodyFrom(json, start.idx)
      requires Resume(json, sb, startIdx, idx) == goal
      modifies this`errorIdx, this`sb
      ensures Valid() && readAhead == old(readAhead) && idx == old(idx)
      ensures (s, State()) == ReaderSpec.ReadString(json, start)
    {
      EndStep(json, sb, startIdx);
      UnclosedString(json, start, goal);
      OnError();
      s := ReadStringEnd(startIdx);
    }

    /** The string reader's result for a string whose closing quote was found. */
    static lemma ClosedString(json: seq<Unit>, c: Cursor, scan: StringScan)
      requires ValidCursor(json, c) && scan == BodyFrom(json, c.idx) && scan.closed
      ensures ReaderSpec.ReadString(json, c) == (scan.text, c.(idx := scan.end))
    {
    }

    /** The string reader's result for a string the end of the text cut short. */
    static lemma UnclosedString(json: seq<Unit>, c: Cursor, scan: StringScan)
      requires ValidCursor(json, c) && scan == BodyFrom(json, c.idx) && !scan.closed
      ensures ReaderSpec.ReadString(json, c)
              == (if scan.rawTail then scan.text[..|scan.text| - 1] else scan.text, c.(idx := |json|, err := |json|))
    {
    }

    /**
     * One turn of the string reader's loop: a quote closes the string, a
     * plain character joins the pending run that starts at `startIdx`, and a
     * backslash flushes that run into `sb` and decodes an escape.
     */
    method ReadStringPiece(startIdx: int) returns (next: int, closed: bool)
      requires Valid() && idx < |json|
      requires startIdx == -1 || 0 <= startIdx < idx
      modifies this`idx, this`sb
      ensures Valid() && old(idx) < idx && readAhead == old(readAhead) && errorIdx == old(errorIdx)
      ensures next == -1 || 0 <= next < idx
      ensures closed ==>
                Resume(json, old(sb), startIdx, old(idx))
                == StringScan(sb + (if next == -1 then [] else json[next..idx - 1]), idx, true, false)
      ensures !closed ==> Resume(json, old(sb), startIdx, old(idx)) == Resume(json, sb, next, idx)
    {
      next := startIdx;
      var c := json[idx];
      idx := idx + 1;
      if c == Dquote {
        CloseStep(json, sb, startIdx, idx - 1);
        return next, true;
      }
      if c != Backslash {
        if next == -1 {
          next := idx - 1;
        }
        RawStep(json, sb, next, idx - 1);
        return next, false;
      }
      ReadBackslash(next);
      return -1, false;
    }

    /**
     * The backslash case of the string reader's loop, entered just past the
     * backslash: appends the pending run to `sb`, then decodes the escape
     * unless the text ends here.
     */
    method ReadBackslash(startIdx: int)
      requires Valid() && 1 <= idx && json[idx - 1] == Backslash
      requires startIdx == -1 || 0 <= startIdx < idx
      modifies this`idx, this`sb
      ensures Valid() && old(idx) <= idx && readAhead == old(readAhead) && errorIdx == old(errorIdx)
      ensures Resume(json, old(sb), startIdx, old(idx) - 1) == Resume(json, sb, -1, idx)
    {
      BackslashStep(json, sb, startIdx, idx - 1);
      if startIdx != -1 {
        sb := sb + json[startIdx..idx - 1];
      }
      if idx == |json| {
        EndEscapeStep(json, sb);
        return;
      }
      EscapeStep(json, sb, idx);
      ReadEscape();
    }

    /**
     * Decodes the escape whose letter is at the cursor, just past the
     * backslash, appending what it stands for to `sb`.
     */
    method ReadEscape()
      requires Valid() && idx < |json|
      modifies this`idx, this`sb
      ensures Valid() && readAhead == old(readAhead) && errorIdx == old(errorIdx)
      ensures (sb, idx) == (old(sb) + EscapePiece(json, old(idx)).0, EscapePiece(json, old(idx)).1)
    {
      var c := json[idx];
      idx := idx + 1;
      if c == Dquote || c == Slash || c == Backslash {
        sb := sb + [c];
      } else if c == LowerB {
        sb := sb + [Backspace];
      } else if c == LowerF {
        sb := sb + [Feed];
      } else if c == LowerN {
        sb := sb + [Newline];
      } else if c == LowerR {
        sb := sb + [Return];
      } else if c == LowerT {
        sb := sb + [Tab];
      } else if c == LowerU {
        if QueueCount() < UnicodeEscapeLen {
          // Too short: the characters after it are read as plain text.
          assert old(sb) + EscapePiece(json, idx - 1).0 == sb;
        } else {
          var c2 := UnicodePointToChar(json, idx, UnicodeEscapeLen);
          UnicodeEscapeStep(json, idx - 1, c2);
          sb := sb + [c2];
          idx := idx + UnicodeEscapeLen;
        }
      } else {
        // Any other letter is dropped.
        assert Unescape(c) == [];
        assert old(sb) + Unescape(c) == sb;
      }
    }

    /**
     * What the string reader has produced so far (`sb` and the pending run
     * from `startIdx`) followed by the decoding of the rest from `i`.
     */
    static ghost function Resume(json: seq<Unit>, sb: seq<Unit>, startIdx: int, i: nat): StringScan
      requires i <= |json|
      requires startIdx == -1 || 0 <= startIdx <= i
    {
      var pending := if startIdx == -1 then [] else json[startIdx..i];
      var rest := ScanString(json, i);
      StringScan(sb + pending + rest.text, rest.end, rest.closed,
                 rest.rawTail || (i == |json| && startIdx != -1))
    }

    /** A plain character joins the pending run. */
    static lemma RawStep(json: seq<Unit>, sb: seq<Unit>, startIdx: int, i: nat)
      requires i < |json| && json[i] != Dquote && json[i] != Backslash
      requires 0 <= startIdx <= i
      ensures Resume(json, sb, if startIdx == i then -1 else startIdx, i) == Resume(json, sb, startIdx, i + 1)
    {
      assert json[startIdx..i + 1] == json[startIdx..i] + [json[i]];
    }

    /** A quote ends the body: the text is what was produced plus the pending run. */
    static lemma CloseStep(json: seq<Unit>, sb: seq<Unit>, startIdx: int, i: nat)
      requires i < |json| && json[i] == Dquote
      requires startIdx == -1 || 0 <= startIdx <= i
      ensures Resume(json, sb, startIdx, i)
              == StringScan(sb + (if startIdx == -1 then [] else json[startIdx..i]), i + 1, true, false)
    {
    }

    /** `sb` with the pending run from `startIdx` to `i` appended. */
    static function Flushed(json: seq<Unit>, sb: seq<Unit>, startIdx: int, i: nat): seq<Unit>
      requires i <= |json|
      requires startIdx == -1 || 0 <= startIdx <= i
    {
      if startIdx == -1 then sb else sb + json[startIdx..i]
    }

    /** A backslash flushes the pending run and starts an escape. */
    static lemma BackslashStep(json: seq<Unit>, sb: seq<Unit>, startIdx: int, i: nat)
      requires i < |json| && json[i] == Backslash
      requires startIdx == -1 || 0 <= startIdx <= i
      ensures Resume(json, sb, startIdx, i) == Prepend(Flushed(json, sb, startIdx, i), ScanEscape(json, i + 1))
    {
      if startIdx == -1 {
        assert sb + [] == sb;
      }
    }

    /** A backslash that is the last character ends the body unclosed, with no pending run. */
    static lemma EndEscapeStep(json: seq<Unit>, sb: seq<Unit>)
      requires |json| > 0
      ensures Prepend(sb, ScanEscape(json, |json|)) == Resume(json, sb, -1, |json|)
    {
      assert sb + [] + [] == sb + [];
    }

    /** An escape appends its piece and resumes after it. */
    static lemma EscapeStep(json: seq<Unit>, sb: seq<Unit>, j: nat)
      requires j < |json|
      ensures Prepend(sb, ScanEscape(json, j))
              == Resume(json, sb + EscapePiece(json, j).0, -1, EscapePiece(json, j).1)
    {
    }

    /**
     * At the end of the text the string is unclosed, and a pending run makes
     * the last character the one dropped.
     */
    static lemma EndStep(json: seq<Unit>, sb: seq<Unit>, startIdx: int)
      requires startIdx == -1 || 0 <= startIdx < |json|
      ensures var r := Resume(json, sb, startIdx, |json|);
              && !r.closed && r.end == |json| && (r.rawTail <==> startIdx != -1)
              && (if r.rawTail then r.text[..|r.text| - 1] else r.text)
                 == sb + (if startIdx == -1 then [] else json[startIdx..|json| - 1])
    {
      if startIdx != -1 {
        assert (sb + json[startIdx..|json|])[..|sb + json[startIdx..|json|]| - 1] == sb + json[startIdx..|json| - 1];
      }
    }

    /** Appends the pending run, which ends one character before the cursor, and returns the text. */
    method ReadStringEnd(startIdx: int) returns (s: seq<Unit>)
      requires Valid()
      requires startIdx == -1 || 0 <= startIdx <= idx - 1
      modifies this`sb
      ensures s == old(sb) + (if startIdx == -1 then [] else json[startIdx..idx - 1])
      ensures sb == (if startIdx != -1 && old(sb) == [] then [] else s)
    {
      if startIdx != -1 {
        if |sb| == 0 {
          return json[startIdx..idx - 1];
        }
        sb := sb + json[startIdx..idx - 1];
      }
      return sb;
    }

    method ReadValue() returns (r: Outcome<Value>, ghost fp: set<object>)
      requires Valid()
      modifies this
      decreases |json| - idx, 2
      ensures Valid() && fresh(fp)
      ensures State() == ParseValue(json, old(State())).1
      ensures Realizes(r, ParseValue(json, old(State())).0, fp)
      ensures old(idx) <= idx
      ensures r.Done? ==> readAhead == TokenType.None
    {
      var t := Peek();
      Flush();
      fp := {};
      if t == String {
        var s := ReadString();
        r := Done(Text(s));
      } else if t == Number {
        var n := ReadNumber();
        r := if n.Done? then Done(Text(n.value)) else Crash;
      } else if t == True {
        r := Done(Text(TrueText));
      } else if t == False {
        r := Done(Text(FalseText));
      } else if t == TokenType.Null {
        r := Done(Value.Null);
      } else if t == ArrayBegin {
        r, fp := ReadArray();
      } else if t == ObjectBegin {
        r, fp := ReadObject();
      } else {
        OnError();
        r := Done(Value.Null);
      }
    }

    /**
     * Decodes `length` characters from `startIndex` as hexadecimal digits,
     * skipping any other character, in `uint` arithmetic, and narrows the
     * result to a code unit.
     */
    static method UnicodePointToChar(source: seq<Unit>, startIndex: nat, length: nat) returns (r: Unit)
      requires startIndex + length <= |source|
      ensures r as int == HexFold(source[startIndex..startIndex + length]) % 0x1_0000
    {
      var n: int := 0;
      var end := startIndex + length;
      var i := startIndex;
      while i < end
        invariant startIndex <= i <= end
        invariant n == HexFold(source[startIndex..i]) % UintModulus
      {
        var c := source[i];
        assert source[startIndex..i + 1] == source[startIndex..i] + [c];
        DecodeStep(n, source[startIndex..i], c);
        n := ShiftDigit(n, c);
        i := i + 1;
      }
      Narrow(HexFold(source[startIndex..end]));
      r := (n % 0x1_0000) as Unit;
    }

    /** The body of the decoding loop: a digit, by whichever branch recognises it, shifts and adds in `uint` arithmetic. */
    static method ShiftDigit(n: int, c: Unit) returns (r: int)
      ensures r == if IsHexDigit(c) then (n * 16 + HexDigitValue(c)) % UintModulus else n
    {
      if c >= Digit0 && c <= Digit9 {
        r := (n * 16 + (c - Digit0) as int) % UintModulus;
      } else if c >= LowerA && c <= LowerF {
        r := (n * 16 + HexDigits[c - LowerA]) % UintModulus;
      } else if c >= UpperA && c <= UpperF {
        r := (n * 16 + HexDigits[c - UpperA]) % UintModulus;
      } else {
        r := n;
      }
    }

    // -------------------------------------------------------------------
    // Errors
    // -------------------------------------------------------------------

    /** Records an error at the cursor, overwriting any earlier one. */
    method OnError()
      requires Valid()
      modifies this`errorIdx
      ensures Valid()
      ensures State() == Scanner.OnError(old(State()))
    {
      errorIdx := idx;
    }

    /** -1 until an error is recorded; then the cursor position at the last error. */
    function ErrorIndex(): (r: int)
      reads this
      requires Valid()
      ensures r == errorIdx && -1 <= r <= idx
    {
      errorIdx
    }

    /** True for a null text, and once any error has been recorded. */
    function HasError(): (r: bool)
      reads this
      requires Valid()
      ensures r <==> isNull || 0 <= errorIdx
      ensures !isNull && errorIdx == -1 ==> !r
    {
      isNull || errorIdx > -1
    }

    /** True for a null text, and when the last error was recorded at the end of the text. */
    function IsErrorEOF(): (r: bool)
      reads this
      requires Valid()
      ensures r <==> isNull || errorIdx == |json|
      ensures r ==> HasError()
    {
      isNull || errorIdx == |json|
    }
  }

  /**
   * Reads a text with a fresh reader: null or empty text gives null, and
   * otherwise the value the text starts with.
   */
  method ReadJson(source: Option<seq<Unit>>) returns (r: Outcome<Value>, ghost fp: set<object>)
    ensures fresh(fp)
    ensures var text := if source.Some? then source.value else [];
            Realizes(r, ReaderSpec.Read(text, source.None?, Initial).0, fp)
  {
    var reader := new JsonReader(source);
    r, fp := reader.Read();
  }
}
