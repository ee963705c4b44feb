/**
  The initialiser `JSONDecoder.init(_:isSub:)`: it turns raw input (text,
  bytes, or a native tree of arrays, dictionaries and scalars) into a tree of
  decoder nodes.  Text at the top level and bytes at any depth go to the JSON
  parser first; a parse failure becomes an error node.
 */
module Decoding {
  import opened Wrappers
  import opened Strings
  import opened JSONJoy

  /**
    The raw objects the initialiser accepts: a string, `NSData`, an
    `NSNumber`, `NSNull`, an `NSError`, an `NSArray`, or an `NSDictionary`
    given as its key/value pairs in iteration order.
   */
  datatype Raw =
    | RText(s: string)
    | RData(bytes: seq<Byte>)
    | RNumber(n: NSNumber)
    | RNull
    | RError(e: ErrorInfo)
    | RArray(elems: seq<Raw>)
    | RDict(pairs: seq<(string, Raw)>)

  /** Whether `NSData` occurs anywhere in the tree. */
  predicate HasData(raw: Raw) {
    match raw
    case RData(_) => true
    case RArray(elems) => exists i :: 0 <= i < |elems| && HasData(elems[i])
    case RDict(pairs) => exists i :: 0 <= i < |pairs| && HasData(pairs[i].1)
    case _ => false
  }

  /** What the JSON parser returns on success: a native tree without `NSData`. */
  type Parsed = raw: Raw | !HasData(raw) witness RNull

  /**
    The foreign parser `NSJSONSerialization.JSONObjectWithData`, passed in:
    bytes to a native tree, or the `NSError` it throws.
   */
  type Parser = seq<Byte> -> Result<Parsed, ErrorInfo>

  /** 1 while a call may still reach the parser, for termination. */
  function ParseBound(raw: Raw, isSub: bool): nat {
    if HasData(raw) || (raw.RText? && !isSub) then 1 else 0
  }

  function Leaf(v: Value): JSONDecoder {
    JSONDecoder(Some(v))
  }

  /**
    The node `JSONDecoder(raw, isSub: isSub)`.  Every node it builds is normal:
    no node is absent and every dictionary has distinct keys.
   */
  function Normalized(raw: Raw, isSub: bool, parse: Parser): (d: JSONDecoder)
    ensures Normal(d)
    decreases ParseBound(raw, isSub), raw
  {
    match raw
    case RText(s) =>
      if isSub then Leaf(Text(s)) else FromParser(parse(Utf8(s)), parse)
    case RData(bytes) => FromParser(parse(bytes), parse)
    case RNumber(n) => Leaf(Number(n))
    case RNull => Leaf(Null)
    case RError(e) => Leaf(Error(e))
    case RArray(elems) =>
      Leaf(Array(seq(|elems|, i requires 0 <= i < |elems| => Normalized(elems[i], true, parse))))
    case RDict(pairs) =>
      var children := seq(|pairs|, i requires 0 <= i < |pairs| =>
        (pairs[i].0, Normalized(pairs[i].1, true, parse)));
      assert forall e :: e in children ==> Normal(e.1);
      Leaf(Dictionary(PutAll(children)))
  }

  /** What the initialiser stores after calling the parser: the error it threw, or the tree it returned. */
  function FromParser(result: Result<Parsed, ErrorInfo>, parse: Parser): (d: JSONDecoder)
    ensures Normal(d)
    decreases 0, result
  {
    match result
    case Failure(e) => Leaf(Error(e))
    case Success(tree) => Normalized(tree, true, parse)
  }

  // ---------------------------------------------------------------- what normalisation gives

  /** A native array becomes an array node of the same length whose child `i` is element `i` as a sub-node. */
  lemma NormalizedArray(elems: seq<Raw>, isSub: bool, parse: Parser)
    ensures var d := Normalized(RArray(elems), isSub, parse);
      && AsArray(d).Some? && |AsArray(d).value| == |elems|
      && forall i :: 0 <= i < |elems| ==> At(d, i) == Normalized(elems[i], true, parse)
  {
  }

  /**
    A native dictionary becomes a dictionary node with the same keys; each key
    subscripts to the sub-node of its (last) value, and any other key misses.
   */
  lemma NormalizedDictionary(pairs: seq<(string, Raw)>, isSub: bool, parse: Parser)
    ensures var d := Normalized(RDict(pairs), isSub, parse);
      && AsDictionary(d).Some? && AsDictionary(d).value.Keys == KeySet(pairs)
      && (forall i :: 0 <= i < |pairs| && LastWithKey(pairs, i) ==>
            Member(d, pairs[i].0) == Normalized(pairs[i].1, true, parse))
      && (forall key :: key !in KeySet(pairs) ==> Member(d, key) == MissNode(KeyMissText(key)))
  {
    var children := seq(|pairs|, i requires 0 <= i < |pairs| =>
      (pairs[i].0, Normalized(pairs[i].1, true, parse)));
    var d := Normalized(RDict(pairs), isSub, parse);
    var m := ToMap(children);
    assert AsDictionary(d) == Some(m);
    ToMapSpec(children);
    SameKeys(children, pairs);
    forall i | 0 <= i < |pairs| && LastWithKey(pairs, i)
      ensures Member(d, pairs[i].0) == Normalized(pairs[i].1, true, parse)
    {
      assert children[i].0 == pairs[i].0 && m[children[i].0] == children[i].1;
    }
  }

  /** With distinct keys (as an `NSDictionary` has) every key subscripts to the sub-node of its value. */
  lemma NormalizedDistinctDictionary(pairs: seq<(string, Raw)>, isSub: bool, parse: Parser)
    requires DistinctKeys(pairs)
    ensures forall i :: 0 <= i < |pairs| ==>
      Member(Normalized(RDict(pairs), isSub, parse), pairs[i].0) == Normalized(pairs[i].1, true, parse)
  {
    NormalizedDictionary(pairs, isSub, parse);
    assert forall i :: 0 <= i < |pairs| ==> LastWithKey(pairs, i);
  }

  /** A string met as a sub-node is kept as that literal string. */
  lemma SubTextIsLiteral(s: string, parse: Parser)
    ensures Normalized(RText(s), true, parse) == Leaf(Text(s))
    ensures AsString(Normalized(RText(s), true, parse)) == Some(s)
  {
  }

  /**
    A string at the top level is JSON text: a parse failure is stored as the
    error, a parsed tree is normalised as a sub-node, so it is not parsed again.
   */
  lemma TopLevelTextIsParsed(s: string, parse: Parser)
    ensures parse(Utf8(s)).Failure? ==>
      AsError(Normalized(RText(s), false, parse)) == Some(parse(Utf8(s)).error)
    ensures parse(Utf8(s)).Success? ==>
      Normalized(RText(s), false, parse) == Normalized(parse(Utf8(s)).value, true, parse)
  {
  }

  /** Numbers, null and errors are stored as they are, at any depth. */
  lemma ScalarsKept(n: NSNumber, e: ErrorInfo, isSub: bool, parse: Parser)
    ensures AsNumber(Normalized(RNumber(n), isSub, parse)) == Some(n)
    ensures RawValue(Normalized(RNull, isSub, parse)) == Some(Null)
    ensures AsError(Normalized(RError(e), isSub, parse)) == Some(e)
  {
  }

  /** The node a subscript returns on a miss is the initialiser applied to `createError(text)`. */
  lemma MissNodeIsInitOfError(text: string, parse: Parser)
    ensures MissNode(text) == Normalized(RError(CreateError(text)), false, parse)
  {
  }

  /** The initialiser never leaves a node absent. */
  lemma NeverAbsent(raw: Raw, isSub: bool, parse: Parser)
    ensures RawValue(Normalized(raw, isSub, parse)).Some?
  {
  }

  /**
    The initialiser as the source runs it: text at the top level is encoded
    and parsed, bytes are parsed, and an array or a dictionary is rebuilt
    child by child, each child a sub-node.
   */
  method Init(raw: Raw, isSub: bool, parse: Parser) returns (d: JSONDecoder)
    ensures d == Normalized(raw, isSub, parse)
    decreases ParseBound(raw, isSub), raw, 1
  {
    var rawObject := raw;
    if rawObject.RText? && !isSub {
      rawObject := RData(Utf8(rawObject.s));
    }
    assert rawObject.RData? ==> Normalized(raw, isSub, parse) == FromParser(parse(rawObject.bytes), parse);
    if rawObject.RData? {
      var response := parse(rawObject.bytes);
      if response.Failure? {
        d := Leaf(Error(response.error));
        return;
      }
      rawObject := response.value;
    }
    assert Normalized(raw, isSub, parse) == Normalized(rawObject, true, parse);
    match rawObject {
      case RArray(elems) =>
        var collect := InitElements(elems, parse);
        d := Leaf(Array(collect));
      case RDict(pairs) =>
        var collect := InitPairs(pairs, parse);
        d := Leaf(Dictionary(collect));
      case RText(s) => d := Leaf(Text(s));
      case RNumber(n) => d := Leaf(Number(n));
      case RNull => d := Leaf(Null);
      case RError(e) => d := Leaf(Error(e));
      case RData(_) => assert false;
    }
  }

  /** The loop over an `NSArray`: one sub-node per element, appended in order. */
  method InitElements(elems: seq<Raw>, parse: Parser) returns (collect: seq<JSONDecoder>)
    ensures collect == seq(|elems|, i requires 0 <= i < |elems| => Normalized(elems[i], true, parse))
    decreases ParseBound(RArray(elems), true), RArray(elems), 0
  {
    collect := [];
    for i := 0 to |elems|
      invariant |collect| == i
      invariant forall j :: 0 <= j < i ==> collect[j] == Normalized(elems[j], true, parse)
    {
      var sub := Init(elems[i], true, parse);
      collect := collect + [sub];
    }
  }

  /** The loop over an `NSDictionary`: each value made a sub-node and stored under its key. */
  method InitPairs(pairs: seq<(string, Raw)>, parse: Parser) returns (collect: seq<(string, JSONDecoder)>)
    ensures collect == PutAll(seq(|pairs|, i requires 0 <= i < |pairs| =>
      (pairs[i].0, Normalized(pairs[i].1, true, parse))))
    decreases ParseBound(RDict(pairs), true), RDict(pairs), 0
  {
    ghost var want := seq(|pairs|, i requires 0 <= i < |pairs| =>
      (pairs[i].0, Normalized(pairs[i].1, true, parse)));
    collect := [];
    for i := 0 to |pairs|
      invariant collect == PutAll(want[..i])
    {
      var sub := Init(pairs[i].1, true, parse);
      assert want[..i + 1] == want[..i] + [(pairs[i].0, sub)];
      PutAllSnoc(want[..i], pairs[i].0, sub);
      collect := Put(collect, pairs[i].0, sub);
    }
    assert want[..|pairs|] == want;
  }
}
