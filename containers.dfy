/**
 * The containers the reader fills: an append-only list (JsonArray,
 * src/ntojs/JsonArray.cs) and a dictionary with unique keys (JsonObject,
 * src/ntojs/JsonObject.cs). Both are mutated in place, so both are classes
 * whose methods reassign their one field.
 *
 * A stored value is null, a string, an array or an object; `Value` says
 * which. Operations that throw in the source (a repeated key, a missing key
 * under the indexer) report failure instead.
 */
module Containers {
  import opened Chars

  datatype Option<T> = None | Some(value: T)

  /** What a container slot holds: null, a string, a JsonArray or a JsonObject. */
  datatype Value = Null | Text(s: seq<Unit>) | Arr(a: JsonArray) | Obj(o: JsonObject)

  /** The reference types the typed getters cast to: string, JsonArray, JsonObject. */
  datatype Shape = StringShape | ListShape | GraphShape

  /** `v is T`: a stored null has no shape. */
  predicate HasShape(v: Value, shape: Shape) {
    match shape
    case StringShape => v.Text?
    case ListShape => v.Arr?
    case GraphShape => v.Obj?
  }

  /** `v as T`: the value itself when it has the shape, null otherwise. */
  function As(v: Value, shape: Shape): (r: Value)
    ensures HasShape(v, shape) ==> r == v
    ensures !HasShape(v, shape) ==> r == Null
  {
    if HasShape(v, shape) then v else Null
  }

  /** A list of values that only grows at its end. */
  class JsonArray {
    var items: seq<Value>

    constructor ()
      ensures items == []
    {
      items := [];
    }

    /** Appends `value` (null included) and returns this same array. */
    method Add(value: Value) returns (self: JsonArray)
      modifies this
      ensures self == this
      ensures items == old(items) + [value]
      ensures |items| == |old(items)| + 1 && items[|items| - 1] == value
      ensures forall i :: 0 <= i < |old(items)| ==> items[i] == old(items)[i]
    {
      items := items + [value];
      self := this;
    }

    /** Enumeration: the elements, first-added first. */
    function Elements(): (r: seq<Value>)
      reads this
      ensures |r| == |items| && forall i :: 0 <= i < |r| ==> r[i] == items[i]
    {
      items
    }
  }

  /** The keys of `m` that hold `v`. */
  ghost function KeysHolding(m: map<seq<Unit>, Value>, v: Value): set<seq<Unit>> {
    set k | k in m && m[k] == v
  }

  /** Removing key `k` loses one holder of `m[k]` and no holder of any other value. */
  lemma KeysHoldingRemove(m: map<seq<Unit>, Value>, k: seq<Unit>, v: Value)
    requires k in m
    ensures |KeysHolding(m, v)| == |KeysHolding(m - {k}, v)| + (if m[k] == v then 1 else 0)
  {
    if m[k] == v {
      assert KeysHolding(m, v) == KeysHolding(m - {k}, v) + {k};
    } else {
      assert KeysHolding(m, v) == KeysHolding(m - {k}, v);
    }
  }

  /**
   * The values of a map with multiplicity and in no particular order: the
   * value of each key occurs once for every key that holds it, and nothing
   * else occurs.
   */
  ghost function ValuesOf(m: map<seq<Unit>, Value>): (r: multiset<Value>)
    ensures |r| == |m|
    ensures forall k :: k in m ==> r[m[k]] == |KeysHolding(m, m[k])|
    ensures forall v :: v in r ==> exists k :: k in m && m[k] == v
    decreases |m|
  {
    if m == map[] then multiset{}
    else
      var k :| k in m;
      var rest := m - {k};
      assert |rest| == |m| - 1;
      CountsAfterInsert(m, k, ValuesOf(rest));
      ValuesOf(rest) + multiset{m[k]}
  }

  /** Adding back the value of key `k` restores the count of every stored value. */
  lemma CountsAfterInsert(m: map<seq<Unit>, Value>, k: seq<Unit>, restValues: multiset<Value>)
    requires k in m
    requires forall j :: j in m - {k} ==> restValues[m[j]] == |KeysHolding(m - {k}, m[j])|
    requires forall v :: v in restValues ==> exists j :: j in m - {k} && m[j] == v
    ensures forall j :: j in m ==> (restValues + multiset{m[k]})[m[j]] == |KeysHolding(m, m[j])|
  {
    forall j | j in m
      ensures (restValues + multiset{m[k]})[m[j]] == |KeysHolding(m, m[j])|
    {
      var v := m[j];
      if v !in restValues {
        assert forall i :: i in KeysHolding(m - {k}, v) ==> restValues[m[i]] > 0;
        assert KeysHolding(m - {k}, v) == {};
      } else {
        var i :| i in m - {k} && m[i] == v;
        assert restValues[v] == |KeysHolding(m - {k}, v)|;
      }
      KeysHoldingRemove(m, k, v);
    }
  }

  /** A dictionary from string keys to values; a key occurs at most once. */
  class JsonObject {
    var entries: map<seq<Unit>, Value>

    constructor ()
      ensures entries == map[]
    {
      entries := map[];
    }

    /**
     * Inserts a new key and returns this same object. A key that is already
     * present makes the source throw: `ok` is false and nothing changes.
     */
    method Add(key: seq<Unit>, value: Value) returns (self: JsonObject, ok: bool)
      modifies this
      ensures self == this
      ensures ok <==> key !in old(entries)
      ensures ok ==> entries == old(entries)[key := value]
      ensures !ok ==> entries == old(entries)
      ensures ok ==> Item(key) == Some(value)
      ensures forall k :: k != key ==> Item(k) == old(Item(k))
    {
      self := this;
      ok := key !in entries;
      if ok {
        entries := entries[key := value];
      }
    }

    function Keys(): (r: set<seq<Unit>>)
      reads this
      ensures forall k :: k in r <==> k in entries
    {
      entries.Keys
    }

    /** The stored values, each once for every key that holds it, in no promised order. */
    ghost function Values(): (r: multiset<Value>)
      reads this
      ensures |r| == |entries|
      ensures forall k :: k in entries ==> r[entries[k]] == |KeysHolding(entries, entries[k])|
      ensures forall k :: k in entries ==> entries[k] in r
      ensures forall v :: v in r ==> exists k :: k in entries && entries[k] == v
    {
      ValuesOf(entries)
    }

    /**
     * Enumeration yields the stored values, not the keys: as many as there
     * are keys, each the value of some key, in no promised order.
     */
    ghost function Enumerate(): (r: multiset<Value>)
      reads this
      ensures r == Values()
      ensures |r| == |Keys()|
      ensures forall k :: k in entries ==> r[entries[k]] == |KeysHolding(entries, entries[k])|
    {
      Values()
    }

    /** The indexer's getter: the stored value, or `None` where the source throws. */
    function Item(key: seq<Unit>): (r: Option<Value>)
      reads this
      ensures r.Some? <==> key in entries
      ensures r.Some? ==> r.value == entries[key]
    {
      if key in entries then Some(entries[key]) else None
    }

    /** The indexer's setter: inserts or replaces, never fails, leaves other keys alone. */
    method SetItem(key: seq<Unit>, value: Value)
      modifies this
      ensures entries == old(entries)[key := value]
      ensures Item(key) == Some(value)
      ensures forall k :: k != key ==> Item(k) == old(Item(k))
    {
      entries := entries[key := value];
    }

    /**
     * `Get<T>` as written: the default when the key is absent, and also when
     * the stored value IS a `T`; null when it is not. The test of the cast
     * is inverted (see `GetIntended`).
     */
    function Get(key: seq<Unit>, shape: Shape, defaultValue: Value): (r: Value)
      reads this
      requires defaultValue == Null || HasShape(defaultValue, shape)
      ensures key !in entries ==> r == defaultValue
      ensures key in entries && HasShape(entries[key], shape) ==> r == defaultValue
      ensures key in entries && !HasShape(entries[key], shape) ==> r == Null
    {
      if key !in entries then defaultValue
      else
        var tval := As(entries[key], shape);
        if tval != Null then defaultValue else tval
    }

    /**
     * `Get<T>` as evidently intended: the stored value when it is a `T`,
     * the default otherwise.
     */
    function GetIntended(key: seq<Unit>, shape: Shape, defaultValue: Value): (r: Value)
      reads this
      requires defaultValue == Null || HasShape(defaultValue, shape)
      ensures r == Null || HasShape(r, shape)
      ensures key in entries && HasShape(entries[key], shape) ==> r == entries[key]
      ensures !(key in entries && HasShape(entries[key], shape)) ==> r == defaultValue
    {
      if key in entries && HasShape(entries[key], shape) then entries[key] else defaultValue
    }

    /**
     * The inversion: whenever a key holds a `T` and the default is not that
     * same value, `Get` and `GetIntended` disagree, and `GetIntended` is the
     * one that agrees with `TryGet`.
     */
    lemma GetIsInverted(key: seq<Unit>, shape: Shape, defaultValue: Value)
      requires defaultValue == Null || HasShape(defaultValue, shape)
      requires key in entries && HasShape(entries[key], shape) && entries[key] != defaultValue
      ensures Get(key, shape, defaultValue) != GetIntended(key, shape, defaultValue)
      ensures Get(key, shape, defaultValue) == defaultValue
      ensures TryGet(key, shape) == (true, GetIntended(key, shape, defaultValue))
    {
    }

    /** `GetGraph`: `Get<JsonObject>` (a null default gives the one-argument overload). */
    function GetGraph(key: seq<Unit>, defaultValue: JsonObject?): (r: JsonObject?)
      reads this
      ensures key !in entries ==> r == defaultValue
      ensures key in entries && entries[key].Obj? ==> r == defaultValue
      ensures key in entries && !entries[key].Obj? ==> r == null
    {
      var d := if defaultValue == null then Null else Obj(defaultValue);
      var v := Get(key, GraphShape, d);
      if v.Obj? then v.o else null
    }

    /** `GetList`: `Get<JsonArray>` (a null default gives the one-argument overload). */
    function GetList(key: seq<Unit>, defaultValue: JsonArray?): (r: JsonArray?)
      reads this
      ensures key !in entries ==> r == defaultValue
      ensures key in entries && entries[key].Arr? ==> r == defaultValue
      ensures key in entries && !entries[key].Arr? ==> r == null
    {
      var d := if defaultValue == null then Null else Arr(defaultValue);
      var v := Get(key, ListShape, d);
      if v.Arr? then v.a else null
    }

    /** `GetString`: `Get<string>`; `None` is a null string (a `None` default gives the one-argument overload). */
    function GetString(key: seq<Unit>, defaultValue: Option<seq<Unit>>): (r: Option<seq<Unit>>)
      reads this
      ensures key !in entries ==> r == defaultValue
      ensures key in entries && entries[key].Text? ==> r == defaultValue
      ensures key in entries && !entries[key].Text? ==> r == None
    {
      var d := if defaultValue.None? then Null else Text(defaultValue.value);
      var v := Get(key, StringShape, d);
      if v.Text? then Some(v.s) else None
    }

    /**
     * `TryGet<T>`: an absent key gives false and null; a present one gives
     * the stored value cast to `T`, and true exactly when that is not null
     * (so a stored null gives false).
     */
    function TryGet(key: seq<Unit>, shape: Shape): (r: (bool, Value))
      reads this
      ensures key !in entries ==> r == (false, Null)
      ensures key in entries ==> r.1 == As(entries[key], shape)
      ensures r.0 <==> key in entries && HasShape(entries[key], shape)
      ensures r.0 ==> r.1 == entries[key]
    {
      if key !in entries then (false, Null)
      else
        var value := As(entries[key], shape);
        (value != Null, value)
    }

    function TryGetString(key: seq<Unit>): (r: (bool, Option<seq<Unit>>))
      reads this
      ensures r.0 <==> key in entries && entries[key].Text?
      ensures r.0 ==> r.1 == Some(entries[key].s)
      ensures !r.0 ==> r.1 == None
    {
      var (found, v) := TryGet(key, StringShape);
      (found, if v.Text? then Some(v.s) else None)
    }

    function TryGetList(key: seq<Unit>): (r: (bool, JsonArray?))
      reads this
      ensures r.0 <==> key in entries && entries[key].Arr?
      ensures r.0 ==> r.1 == entries[key].a
      ensures !r.0 ==> r.1 == null
    {
      var (found, v) := TryGet(key, ListShape);
      (found, if v.Arr? then v.a else null)
    }

    function TryGetGraph(key: seq<Unit>): (r: (bool, JsonObject?))
      reads this
      ensures r.0 <==> key in entries && entries[key].Obj?
      ensures r.0 ==> r.1 == entries[key].o
      ensures !r.0 ==> r.1 == null
    {
      var (found, v) := TryGet(key, GraphShape);
      (found, if v.Obj? then v.o else null)
    }

    /** Plain dictionary lookup; an absent key gives false and null. */
    function TryGetValue(key: seq<Unit>): (r: (bool, Value))
      reads this
      ensures r.0 <==> key in entries
      ensures r.0 ==> r.1 == entries[key]
      ensures !r.0 ==> r.1 == Null
      ensures r.0 <==> Item(key).Some?
    {
      if key in entries then (true, entries[key]) else (false, Null)
    }
  }
}
