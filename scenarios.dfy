/**
  Concrete uses of the decoder: the boolean coercion table, navigation through
  a nested document, type filtering by `getArray`, and printing.
 */
module Scenarios {
  import opened Wrappers
  import opened Strings
  import opened JSONJoy
  import opened Decoding
  import opened Extraction
  import opened Printing

  function TextNode(s: string): JSONDecoder { JSONDecoder(Some(Text(s))) }
  function IntNode(i: Int64): JSONDecoder { JSONDecoder(Some(Number(IntNumber(i)))) }

  /** The cast `as? String`. */
  function StringCast(v: Value): Option<string> { AsString(JSONDecoder(Some(v))) }

  /** The cast `as? Int`. */
  function IntCast(v: Value): Option<Int64> { AsInteger(JSONDecoder(Some(v))) }

  /** `bool` on spellings of "true" and "false". */
  lemma BoolOfWords()
    ensures AsBool(TextNode("true")) && AsBool(TextNode("TRUE")) && AsBool(TextNode("True"))
    ensures !AsBool(TextNode("FALSE")) && !AsBool(TextNode("false"))
  {
    assert Lower("TRUE") == "true";
    assert Lower("True") == "true";
    assert Lower("FALSE") == "false";
    LowerUnchanged("true");
    LowerUnchanged("false");
    assert DigitsValue("false").None?;
  }

  /** `bool` on numerals: true only above zero; on other text false, without reaching the number cases. */
  lemma BoolOfNumerals()
    ensures AsBool(TextNode("5")) && !AsBool(TextNode("0")) && !AsBool(TextNode("-3"))
    ensures !AsBool(TextNode("abc"))
  {
    AsBoolOfNumeral(5);
    AsBoolOfNumeral(0);
    AsBoolOfNumeral(-3);
    assert IntToDecimal(5) == "5";
    assert IntToDecimal(0) == "0";
    assert IntToDecimal(-3) == "-3";
    LowerUnchanged("abc");
    assert DigitsValue("abc").None?;
  }

  /** `bool` on integers, on nodes without a number, and `getBool` on null. */
  lemma BoolOfOthers()
    ensures !AsBool(IntNode(0)) && AsBool(IntNode(1)) && !AsBool(IntNode(-7))
    ensures !AsBool(JSONDecoder(Some(Null))) && !AsBool(JSONDecoder(None))
    ensures !AsBool(JSONDecoder(Some(Array([])))) && !AsBool(JSONDecoder(Some(Dictionary([]))))
    ensures GetBool(JSONDecoder(Some(Null))) == Failure(WrongType)
  {
  }

  /** The document `{"a": [1, {"b": "x"}], "c": null}` as the parser returns it. */
  function Document(): Parsed {
    RDict([("a", RArray([RNumber(IntNumber(1)), RDict([("b", RText("x"))])])), ("c", RNull)])
  }

  function ListA(): Raw { RArray([RNumber(IntNumber(1)), RDict([("b", RText("x"))])]) }

  /** The two members of the decoded document. */
  lemma DocumentMembers(parse: Parser)
    ensures Member(Normalized(Document(), true, parse), "a") == Normalized(ListA(), true, parse)
    ensures Member(Normalized(Document(), true, parse), "c") == Leaf(Null)
  {
    var pairs := Document().pairs;
    assert pairs[0] == ("a", ListA()) && pairs[1] == ("c", RNull);
    NormalizedDistinctDictionary(pairs, true, parse);
  }

  /** A key the document does not have. */
  lemma DocumentMissingKey(parse: Parser)
    ensures AsError(Member(Normalized(Document(), true, parse), "z")).Some?
  {
    var pairs := Document().pairs;
    NormalizedDictionary(pairs, true, parse);
    assert "z" !in KeySet(pairs);
  }

  /** The elements of `node["a"]`. */
  lemma ListMembers(parse: Parser)
    ensures At(Normalized(ListA(), true, parse), 0) == Leaf(Number(IntNumber(1)))
    ensures Member(At(Normalized(ListA(), true, parse), 1), "b") == Leaf(Text("x"))
    ensures AsError(At(Normalized(ListA(), true, parse), 2)).Some?
  {
    var elems := ListA().elems;
    NormalizedArray(elems, true, parse);
    var inner := elems[1].pairs;
    NormalizedDistinctDictionary(inner, true, parse);
    assert inner[0] == ("b", RText("x"));
    assert At(Normalized(ListA(), true, parse), 1) == Normalized(RDict(inner), true, parse);
  }

  /** The queries under `node["a"]`: `[0]` is the integer 1, `[1]["b"]` the string "x", `[2]` an error node. */
  predicate ListAnswers(list: JSONDecoder) {
    && AsInteger(At(list, 0)) == Some(1)
    && AsString(Member(At(list, 1), "b")) == Some("x")
    && AsError(At(list, 2)).Some?
  }

  /**
    The queries on the decoded document: those under `node["a"]`, `node["c"]`
    null with no string view, and `node["z"]` an error node.
   */
  predicate AnswersQueries(node: JSONDecoder) {
    && ListAnswers(Member(node, "a"))
    && RawValue(Member(node, "c")) == Some(Null)
    && AsString(Member(node, "c")).None?
    && AsError(Member(node, "z")).Some?
  }

  lemma ListQueries(parse: Parser)
    ensures ListAnswers(Normalized(ListA(), true, parse))
  {
    ListMembers(parse);
  }

  /** The normalised document answers the queries. */
  lemma DocumentQueries(parse: Parser)
    ensures AnswersQueries(Normalized(Document(), true, parse))
  {
    DocumentMembers(parse);
    DocumentMissingKey(parse);
    ListQueries(parse);
  }

  /** So does the node built from any text the parser reads as that document. */
  lemma NestedDocument(text: string, parse: Parser)
    requires parse(Utf8(text)) == Success(Document())
    ensures AnswersQueries(Normalized(RText(text), false, parse))
  {
    TopLevelTextIsParsed(text, parse);
    DocumentQueries(parse);
  }

  function Mixed(): seq<JSONDecoder> {
    [TextNode("a"), IntNode(1), TextNode("b"), IntNode(2)]
  }

  /** `Filtered(Mixed())` taken apart element by element. */
  lemma FilteredMixed<T>(cast: Value -> Option<T>)
    ensures Filtered(Mixed(), cast) ==
      Listed(Matched(TextNode("a"), cast)) + Listed(Matched(IntNode(1), cast)) +
      Listed(Matched(TextNode("b"), cast)) + Listed(Matched(IntNode(2), cast))
  {
    var a, b, c, d := [TextNode("a")], [IntNode(1)], [TextNode("b")], [IntNode(2)];
    assert Mixed() == a + b + c + d;
    FilteredAppend(a + b + c, d, cast);
    FilteredAppend(a + b, c, cast);
    FilteredAppend(a, b, cast);
    FilteredSingle(a[0], cast);
    FilteredSingle(b[0], cast);
    FilteredSingle(c[0], cast);
    FilteredSingle(d[0], cast);
  }

  /** `getArray` as `[String]` keeps only the strings of a mixed array, in order. */
  lemma FilterStrings()
    ensures Filtered(Mixed(), StringCast) == ["a", "b"]
  {
    FilteredMixed(StringCast);
  }

  /** `getArray` as `[Int]` keeps only the integers of a mixed array, in order. */
  lemma FilterIntegers()
    ensures Filtered(Mixed(), IntCast) == [1, 2]
  {
    FilteredMixed(IntCast);
  }

  /** A string prints in one pair of quotes, null as `null`, an absent value as nothing. */
  lemma ScalarPrints(s: string, show: Show)
    ensures Printed(TextNode(s), show) == "\"" + s + "\""
    ensures Printed(JSONDecoder(Some(Null)), show) == "null"
    ensures Printed(JSONDecoder(None), show) == ""
  {
  }

  /** `[1, "x"]` prints as `[1,"x"]` when an integer's description is its numeral. */
  lemma ArrayPrint(show: Show)
    requires show(Number(IntNumber(1))) == "1"
    ensures Printed(JSONDecoder(Some(Array([IntNode(1), TextNode("x")]))), show) == "[1,\"x\"]"
  {
    var parts := ["1", "\"x\""];
    assert Printed(IntNode(1), show) == "1";
    assert Printed(TextNode("x"), show) == "\"x\"";
    assert seq(2, i requires 0 <= i < 2 => Printed([IntNode(1), TextNode("x")][i], show)) == parts;
    assert parts[..1] == ["1"];
  }
}
