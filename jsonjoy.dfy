/**
  The decoder node of JSONJoy (class `JSONDecoder` of Source/JSONJoy.swift):
  the values a node can hold, the typed accessors and their throwing `get*`
  twins, the two navigation subscripts and the error they return on a miss.

  A `JSONDecoder` is never changed after its initialiser has run and its
  children form a strict tree, so it is modelled as a value: a node is its
  optional `value`.
 */
module JSONJoy {
  import opened Wrappers
  import opened Strings

  /** An `NSError`: its domain, its code and its localized description. */
  datatype ErrorInfo = ErrorInfo(domain: string, code: int, message: string)

  /** The one error the throwing accessors raise. */
  datatype JSONError = WrongType

  /**
    An `NSNumber`, one case per kind of number it can carry.  A floating-point
    number is kept opaque, as the literal it was read from.
   */
  datatype NSNumber =
    | IntNumber(i: Int64)
    | UIntNumber(u: UInt64)
    | BoolNumber(b: bool)
    | FloatNumber(literal: string)

  /** What a node can hold once its initialiser has normalised the raw input. */
  datatype Value =
    | Text(s: string)
    | Number(n: NSNumber)
    | Null
    | Error(err: ErrorInfo)
    | Array(items: seq<JSONDecoder>)
    | Dictionary(entries: seq<(string, JSONDecoder)>)

  /**
    A decoder node; `value` is None in the absent state.  A dictionary is kept
    as its key/value pairs in iteration order.
   */
  datatype JSONDecoder = JSONDecoder(value: Option<Value>)

  // ---------------------------------------------------------------- dictionaries as pairs

  function KeySet<V>(es: seq<(string, V)>): set<string> {
    set i | 0 <= i < |es| :: es[i].0
  }

  predicate DistinctKeys<V>(es: seq<(string, V)>) {
    forall i, j :: 0 <= i < j < |es| ==> es[i].0 != es[j].0
  }

  /** No later pair has the key of pair `i`. */
  predicate LastWithKey<V>(es: seq<(string, V)>, i: int)
    requires 0 <= i < |es|
  {
    forall j :: i < j < |es| ==> es[j].0 != es[i].0
  }

  /** The dictionary that inserting the pairs in order builds. */
  function ToMap<V>(es: seq<(string, V)>): map<string, V>
    decreases |es|
  {
    if |es| == 0 then map[] else ToMap(es[..|es| - 1])[es[|es| - 1].0 := es[|es| - 1].1]
  }

  lemma KeySetSnoc<V>(es: seq<(string, V)>)
    requires |es| > 0
    ensures KeySet(es) == KeySet(es[..|es| - 1]) + {es[|es| - 1].0}
  {
    var front := es[..|es| - 1];
    forall k | k in KeySet(es) ensures k in KeySet(front) + {es[|es| - 1].0} {
      var i :| 0 <= i < |es| && es[i].0 == k;
      if i < |es| - 1 { assert front[i].0 == k; }
    }
    forall k | k in KeySet(front) ensures k in KeySet(es) {
      var i :| 0 <= i < |front| && front[i].0 == k;
      assert es[i].0 == k;
    }
  }

  /** Pairs `i` and `j` of `es` and of `es` without its last pair agree on their keys. */
  lemma LastWithKeyFront<V>(es: seq<(string, V)>, i: int)
    requires 0 <= i < |es| - 1 && LastWithKey(es, i)
    ensures LastWithKey(es[..|es| - 1], i)
  {
    var front := es[..|es| - 1];
    forall j | i < j < |front| ensures front[j].0 != front[i].0 {
      assert front[j] == es[j] && front[i] == es[i];
    }
  }

  /** Its keys are the keys of the pairs. */
  lemma {:induction false} ToMapKeys<V>(es: seq<(string, V)>)
    ensures ToMap(es).Keys == KeySet(es)
    decreases |es|
  {
    if |es| > 0 {
      ToMapKeys(es[..|es| - 1]);
      KeySetSnoc(es);
    }
  }

  /** Its keys are the keys of the pairs, and the last pair with a key gives its value. */
  lemma {:induction false} ToMapSpec<V>(es: seq<(string, V)>)
    ensures ToMap(es).Keys == KeySet(es)
    ensures forall i :: 0 <= i < |es| && LastWithKey(es, i) ==> ToMap(es)[es[i].0] == es[i].1
    decreases |es|
  {
    ToMapKeys(es);
    if |es| > 0 {
      var front, last := es[..|es| - 1], es[|es| - 1];
      ToMapSpec(front);
      assert ToMap(es) == ToMap(front)[last.0 := last.1];
      forall i | 0 <= i < |es| && LastWithKey(es, i)
        ensures ToMap(es)[es[i].0] == es[i].1
      {
        if i < |front| {
          LastWithKeyFront(es, i);
          assert es[i] == front[i];
        }
      }
    }
  }

  /** Two lists of pairs with the same keys in the same places have the same key set and the same last pairs. */
  lemma SameKeys<V, W>(a: seq<(string, V)>, b: seq<(string, W)>)
    requires |a| == |b| && forall i :: 0 <= i < |a| ==> a[i].0 == b[i].0
    ensures KeySet(a) == KeySet(b)
    ensures forall i :: 0 <= i < |a| ==> (LastWithKey(a, i) <==> LastWithKey(b, i))
  {
    assert forall k :: k in KeySet(a) ==> k in KeySet(b);
    assert forall k :: k in KeySet(b) ==> k in KeySet(a);
  }

  /** In a dictionary with distinct keys every pair is found under its key. */
  lemma ToMapDistinct<V>(es: seq<(string, V)>)
    requires DistinctKeys(es)
    ensures forall i :: 0 <= i < |es| ==> es[i].0 in ToMap(es) && ToMap(es)[es[i].0] == es[i].1
  {
    ToMapSpec(es);
    assert forall i :: 0 <= i < |es| ==> LastWithKey(es, i);
  }

  /** Appending a pair inserts it last. */
  lemma ToMapSnoc<V>(es: seq<(string, V)>, e: (string, V))
    ensures ToMap(es + [e]) == ToMap(es)[e.0 := e.1]
  {
    assert (es + [e])[..|es|] == es;
  }

  /** The pairs without the one under `key`. */
  function Remove<V>(es: seq<(string, V)>, key: string): (r: seq<(string, V)>)
    ensures forall e :: e in r ==> e in es && e.0 != key
    ensures DistinctKeys(es) ==> DistinctKeys(r)
    decreases |es|
  {
    if |es| == 0 then []
    else
      var prefix := es[..|es| - 1];
      var last := es[|es| - 1];
      var front := Remove(prefix, key);
      if last.0 == key then front
      else
        assert DistinctKeys(es) ==> forall e :: e in prefix ==> e.0 != last.0;
        front + [last]
  }

  lemma RemoveUpdateOther<V>(m: map<string, V>, k: string, k2: string, v: V)
    requires k != k2
    ensures (m - {k})[k2 := v] == m[k2 := v] - {k}
  {
  }

  lemma RemoveUpdateSame<V>(m: map<string, V>, k: string, v: V)
    ensures m - {k} == m[k := v] - {k}
  {
  }

  /** Removing a key from the pairs removes it from the dictionary they build. */
  lemma {:induction false} RemoveToMap<V>(es: seq<(string, V)>, key: string)
    ensures ToMap(Remove(es, key)) == ToMap(es) - {key}
    decreases |es|
  {
    if |es| > 0 {
      var prefix := es[..|es| - 1];
      var last := es[|es| - 1];
      RemoveToMap(prefix, key);
      var m := ToMap(prefix);
      assert ToMap(es) == m[last.0 := last.1];
      if last.0 != key {
        ToMapSnoc(Remove(prefix, key), last);
        RemoveUpdateOther(m, key, last.0, last.1);
      } else {
        RemoveUpdateSame(m, key, last.1);
      }
    }
  }

  /**
    `dict[key] = v`: afterwards the dictionary maps `key` to `v` and is unchanged
    elsewhere.  The pair goes last in iteration order.
   */
  function Put<V>(es: seq<(string, V)>, key: string, v: V): (r: seq<(string, V)>)
    ensures ToMap(r) == ToMap(es)[key := v]
    ensures forall e :: e in r ==> e in es || e == (key, v)
    ensures DistinctKeys(es) ==> DistinctKeys(r)
  {
    var rest := Remove(es, key);
    RemoveToMap(es, key);
    ToMapSnoc(rest, (key, v));
    rest + [(key, v)]
  }

  /** Inserting the pairs one after another into an empty dictionary. */
  function PutAll<V>(ps: seq<(string, V)>): (r: seq<(string, V)>)
    ensures DistinctKeys(r)
    ensures ToMap(r) == ToMap(ps)
    ensures forall e :: e in r ==> e in ps
    decreases |ps|
  {
    if |ps| == 0 then []
    else
      var last := ps[|ps| - 1];
      Put(PutAll(ps[..|ps| - 1]), last.0, last.1)
  }

  /** One more pair is one more `Put`. */
  lemma PutAllSnoc<V>(ps: seq<(string, V)>, key: string, v: V)
    ensures PutAll(ps + [(key, v)]) == Put(PutAll(ps), key, v)
  {
    assert (ps + [(key, v)])[..|ps|] == ps;
  }

  // ---------------------------------------------------------------- the normal form

  /**
    What every node built by the initialiser satisfies, at every depth: it holds
    a value, and each dictionary has distinct keys.
   */
  predicate Normal(d: JSONDecoder)
    decreases d
  {
    match d.value
    case None => false
    case Some(v) =>
      match v
      case Array(items) => forall i :: 0 <= i < |items| ==> Normal(items[i])
      case Dictionary(es) => DistinctKeys(es) && forall i :: 0 <= i < |es| ==> Normal(es[i].1)
      case _ => true
  }

  // ---------------------------------------------------------------- typed accessors

  /** `rawValue`: the stored value, as it is. */
  function RawValue(d: JSONDecoder): Option<Value> {
    d.value
  }

  /** `string`: present exactly when the node holds a string. */
  function AsString(d: JSONDecoder): (r: Option<string>)
    ensures r.Some? <==> RawValue(d).Some? && RawValue(d).value.Text?
    ensures r.Some? ==> RawValue(d) == Some(Text(r.value))
  {
    match d.value
    case Some(Text(s)) => Some(s)
    case _ => None
  }

  /** `integer`: present exactly when the node holds a signed integer. */
  function AsInteger(d: JSONDecoder): (r: Option<Int64>)
    ensures r.Some? <==> RawValue(d).Some? && RawValue(d).value.Number? && RawValue(d).value.n.IntNumber?
    ensures r.Some? ==> RawValue(d) == Some(Number(IntNumber(r.value)))
  {
    match d.value
    case Some(Number(IntNumber(i))) => Some(i)
    case _ => None
  }

  /** `unsigned`: present exactly when the node holds an unsigned integer. */
  function AsUnsigned(d: JSONDecoder): (r: Option<UInt64>)
    ensures r.Some? <==> RawValue(d).Some? && RawValue(d).value.Number? && RawValue(d).value.n.UIntNumber?
    ensures r.Some? ==> RawValue(d) == Some(Number(UIntNumber(r.value)))
  {
    match d.value
    case Some(Number(UIntNumber(u))) => Some(u)
    case _ => None
  }

  /** `number`: present exactly when the node holds an `NSNumber` of any kind. */
  function AsNumber(d: JSONDecoder): (r: Option<NSNumber>)
    ensures r.Some? <==> RawValue(d).Some? && RawValue(d).value.Number?
    ensures r.Some? ==> RawValue(d) == Some(Number(r.value))
  {
    match d.value
    case Some(Number(n)) => Some(n)
    case _ => None
  }

  /** `error`: present exactly when the node holds an error. */
  function AsError(d: JSONDecoder): (r: Option<ErrorInfo>)
    ensures r.Some? <==> RawValue(d).Some? && RawValue(d).value.Error?
    ensures r.Some? ==> RawValue(d) == Some(Error(r.value))
  {
    match d.value
    case Some(Error(e)) => Some(e)
    case _ => None
  }

  /** `array`: present exactly when the node holds an array of child nodes. */
  function AsArray(d: JSONDecoder): (r: Option<seq<JSONDecoder>>)
    ensures r.Some? <==> RawValue(d).Some? && RawValue(d).value.Array?
    ensures r.Some? ==> RawValue(d) == Some(Array(r.value))
  {
    match d.value
    case Some(Array(items)) => Some(items)
    case _ => None
  }

  /** `dictionary`: present exactly when the node holds a dictionary; the keys are its keys. */
  function AsDictionary(d: JSONDecoder): (r: Option<map<string, JSONDecoder>>)
    ensures r.Some? <==> RawValue(d).Some? && RawValue(d).value.Dictionary?
    ensures r.Some? ==> r.value.Keys == KeySet(RawValue(d).value.entries)
  {
    match d.value
    case Some(Dictionary(es)) => ToMapSpec(es); Some(ToMap(es))
    case _ => None
  }

  /** At most one of the typed views of a node is present. */
  lemma AccessorsExclusive(d: JSONDecoder)
    ensures AsString(d).Some? ==>
      AsInteger(d).None? && AsUnsigned(d).None? && AsNumber(d).None? &&
      AsError(d).None? && AsArray(d).None? && AsDictionary(d).None?
    ensures AsNumber(d).Some? ==>
      AsString(d).None? && AsError(d).None? && AsArray(d).None? && AsDictionary(d).None?
    ensures AsInteger(d).Some? ==> AsUnsigned(d).None?
    ensures AsError(d).Some? ==> AsArray(d).None? && AsDictionary(d).None?
    ensures AsArray(d).Some? ==> AsDictionary(d).None?
  {
  }

  // ---------------------------------------------------------------- bool coercion

  /** How `bool` reads a string: "true" in any case, or an `Int` numeral above zero. */
  predicate TextIsTrue(s: string) {
    var lower := Lower(s);
    lower == "true" || (ParseInt(lower).Some? && ParseInt(lower).value > 0)
  }

  /**
    `bool`: a string is read by `TextIsTrue` and never reaches the number cases;
    an integer is true when above zero; anything else without a number is false.
   */
  function AsBool(d: JSONDecoder): (r: bool)
    ensures AsString(d).Some? ==> (r <==> TextIsTrue(AsString(d).value))
    ensures AsInteger(d).Some? ==> (r <==> AsInteger(d).value > 0)
    ensures AsNumber(d).None? && AsString(d).None? ==> !r
    ensures AsNumber(d).Some? && AsInteger(d).None? && AsNumber(d).value != BoolNumber(true) ==> !r
  {
    match AsString(d)
    case Some(str) => TextIsTrue(str)
    case None =>
      match AsInteger(d)
      case Some(num) => num > 0
      case None => d.value == Some(Number(BoolNumber(true)))
  }

  /** A JSON boolean reads as itself (an `NSNumber` of 1 or 0 to the integer case). */
  lemma AsBoolOfBoolean(b: bool)
    ensures AsBool(JSONDecoder(Some(Number(BoolNumber(b))))) == b
  {
  }

  /** `bool` on the decimal numeral of an `Int` is true exactly when the number is above zero. */
  lemma AsBoolOfNumeral(n: Int64)
    ensures AsBool(JSONDecoder(Some(Text(IntToDecimal(n as int))))) <==> n > 0
  {
    var s := IntToDecimal(n as int);
    assert forall i :: 0 <= i < |s| ==> !IsUpper(s[i]) by {
      if n < 0 { assert s == "-" + NatToDecimal(-(n as int)); }
    }
    LowerUnchanged(s);
    assert s != "true" by { assert s[0] == '-' || IsDigit(s[0]); }
    ParseIntOfDecimal(n);
  }

  /** `bool` on a string does not depend on the case of its letters. */
  lemma AsBoolIgnoresCase(s: string)
    ensures AsBool(JSONDecoder(Some(Text(s)))) == AsBool(JSONDecoder(Some(Text(Lower(s)))))
  {
    LowerIdempotent(s);
  }

  /** A string whose digits are not an `Int` above zero and which is not "true" reads as false. */
  lemma AsBoolOfNonNumeral(s: string)
    requires Lower(s) != "true"
    requires ParseInt(Lower(s)).None?
    ensures !AsBool(JSONDecoder(Some(Text(s))))
  {
  }

  // ---------------------------------------------------------------- throwing accessors

  /** `getString()`: throws `WrongType` exactly when `string` is absent, else returns it. */
  function GetString(d: JSONDecoder): (r: Result<string, JSONError>)
    ensures r.Failure? <==> AsString(d).None?
    ensures r.Success? ==> AsString(d) == Some(r.value)
  {
    match AsString(d)
    case Some(str) => Success(str)
    case None => Failure(WrongType)
  }

  /** `getInt()`: throws `WrongType` exactly when `integer` is absent, else returns it. */
  function GetInt(d: JSONDecoder): (r: Result<Int64, JSONError>)
    ensures r.Failure? <==> AsInteger(d).None?
    ensures r.Success? ==> AsInteger(d) == Some(r.value)
  {
    match AsInteger(d)
    case Some(i) => Success(i)
    case None => Failure(WrongType)
  }

  /** `getUnsigned()`: throws `WrongType` exactly when `unsigned` is absent, else returns it. */
  function GetUnsigned(d: JSONDecoder): (r: Result<UInt64, JSONError>)
    ensures r.Failure? <==> AsUnsigned(d).None?
    ensures r.Success? ==> AsUnsigned(d) == Some(r.value)
  {
    match AsUnsigned(d)
    case Some(i) => Success(i)
    case None => Failure(WrongType)
  }

  /** `getFloat() -> NSNumber`: throws `WrongType` exactly when `number` is absent, else returns it. */
  function GetNumber(d: JSONDecoder): (r: Result<NSNumber, JSONError>)
    ensures r.Failure? <==> AsNumber(d).None?
    ensures r.Success? ==> AsNumber(d) == Some(r.value)
  {
    match AsNumber(d)
    case Some(i) => Success(i)
    case None => Failure(WrongType)
  }

  /** `getBool()`: throws `WrongType` exactly on a null node, else returns `bool`. */
  function GetBool(d: JSONDecoder): (r: Result<bool, JSONError>)
    ensures r.Failure? <==> RawValue(d) == Some(Null)
    ensures r.Success? ==> r.value == AsBool(d)
  {
    if d.value == Some(Null) then Failure(WrongType) else Success(AsBool(d))
  }

  // ---------------------------------------------------------------- navigation

  const ErrorDomain: string := "JSONJoy"
  const ErrorCode: int := 1002

  /** `createError`: an error in the JSONJoy domain with code 1002 and the given description. */
  function CreateError(text: string): (e: ErrorInfo)
    ensures e.domain == ErrorDomain && e.code == ErrorCode && e.message == text
  {
    ErrorInfo(ErrorDomain, ErrorCode, text)
  }

  /** The node `JSONDecoder(createError(text))` that a subscript returns on a miss. */
  function MissNode(text: string): (r: JSONDecoder)
    ensures AsError(r) == Some(ErrorInfo("JSONJoy", 1002, text))
  {
    JSONDecoder(Some(Error(CreateError(text))))
  }

  const IndexMissSuffix: string := " is greater than array or this is not an Array type."

  /** The message of an index miss: the index in decimal between a fixed prefix and suffix. */
  function IndexMissText(index: int): (r: string)
    ensures |r| == 7 + |IntToDecimal(index)| + |IndexMissSuffix|
    ensures r[..7] == "index: " && r[7..|r| - |IndexMissSuffix|] == IntToDecimal(index)
    ensures r[|r| - |IndexMissSuffix|..] == IndexMissSuffix
  {
    "index: " + IntToDecimal(index) + IndexMissSuffix
  }

  /** Different 64-bit indices give different messages: the index can be read back from the message. */
  lemma IndexMissTextInjective(a: Int64, b: Int64)
    requires a != b
    ensures IndexMissText(a as int) != IndexMissText(b as int)
  {
    var ra, rb := IndexMissText(a as int), IndexMissText(b as int);
    if ra == rb {
      assert IntToDecimal(a as int) == ra[7..|ra| - |IndexMissSuffix|];
      ParseIntOfDecimal(a);
      ParseIntOfDecimal(b);
      assert false;
    }
  }

  const KeyMissSuffix: string := " does not exist or this is not a Dictionary type"

  /** The message of a key miss: the key itself between a fixed prefix and suffix. */
  function KeyMissText(key: string): (r: string)
    ensures |r| == 5 + |key| + |KeyMissSuffix|
    ensures r[..5] == "key: " && r[5..5 + |key|] == key && r[5 + |key|..] == KeyMissSuffix
  {
    "key: " + key + KeyMissSuffix
  }

  /**
    `self[index]`: the stored child when the node is an array longer than
    `index`, otherwise an error node.  A negative index on an array node traps
    in the source; on any other node it gives the error node as well.
   */
  function At(d: JSONDecoder, index: int): (r: JSONDecoder)
    requires index >= 0 || AsArray(d).None?
    ensures AsArray(d).Some? && index < |AsArray(d).value| ==> r == AsArray(d).value[index]
    ensures AsArray(d).None? || index >= |AsArray(d).value| ==> r == MissNode(IndexMissText(index))
  {
    match d.value
    case Some(Array(items)) => if index < |items| then items[index] else MissNode(IndexMissText(index))
    case _ => MissNode(IndexMissText(index))
  }

  /**
    `self[key]`: the child stored under `key` when the node is a dictionary
    holding it, otherwise an error node.
   */
  function Member(d: JSONDecoder, key: string): (r: JSONDecoder)
    ensures AsDictionary(d).Some? && key in AsDictionary(d).value ==> r == AsDictionary(d).value[key]
    ensures AsDictionary(d).None? || key !in AsDictionary(d).value ==> r == MissNode(KeyMissText(key))
  {
    match AsDictionary(d)
    case Some(dict) => if key in dict then dict[key] else MissNode(KeyMissText(key))
    case None => MissNode(KeyMissText(key))
  }

  /** In a normal dictionary node, every pair's child is what its key subscripts to. */
  lemma MemberOfEntry(d: JSONDecoder, i: int)
    requires Normal(d) && RawValue(d).value.Dictionary?
    requires 0 <= i < |RawValue(d).value.entries|
    ensures Member(d, RawValue(d).value.entries[i].0) == RawValue(d).value.entries[i].1
  {
    ToMapDistinct(d.value.value.entries);
  }

  /** A key that no pair carries subscripts to an error node. */
  lemma MemberOfMissingKey(d: JSONDecoder, key: string)
    requires RawValue(d).Some? && RawValue(d).value.Dictionary?
    requires forall i :: 0 <= i < |RawValue(d).value.entries| ==> RawValue(d).value.entries[i].0 != key
    ensures AsError(Member(d, key)) == Some(CreateError(KeyMissText(key)))
  {
  }

  /**
    The node a miss returns answers only `error` (domain "JSONJoy", code 1002):
    every other typed view is absent, `bool` is false and the throwing
    accessors throw, except `getBool`, which returns false.
   */
  lemma MissNodeIsInert(text: string)
    ensures AsError(MissNode(text)) == Some(ErrorInfo("JSONJoy", 1002, text))
    ensures AsString(MissNode(text)).None? && AsInteger(MissNode(text)).None?
    ensures AsUnsigned(MissNode(text)).None? && AsNumber(MissNode(text)).None?
    ensures AsArray(MissNode(text)).None? && AsDictionary(MissNode(text)).None?
    ensures !AsBool(MissNode(text)) && GetBool(MissNode(text)) == Success(false)
    ensures GetString(MissNode(text)) == Failure(WrongType) && GetInt(MissNode(text)) == Failure(WrongType)
  {
  }

  /** Navigating further from a miss gives a miss again, so a chain of subscripts never fails. */
  lemma MissesPropagate(text: string, index: int, key: string)
    ensures At(MissNode(text), index) == MissNode(IndexMissText(index))
    ensures Member(MissNode(text), key) == MissNode(KeyMissText(key))
  {
  }
}
