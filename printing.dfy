/**
  `JSONDecoder.print()`, the debugging printer: arrays and dictionaries in
  brackets with comma-separated members, strings in double quotes (nothing is
  escaped), null as `null`, and any other value by its default description.
 */
module Printing {
  import opened Wrappers
  import opened JSONJoy

  /** `"\(v)"` for a value that is neither a string, null, an array nor a dictionary. */
  type Show = Value -> string

  /** The parts separated by commas. */
  function Join(parts: seq<string>): string
    decreases |parts|
  {
    if |parts| == 0 then ""
    else if |parts| == 1 then parts[0]
    else Join(parts[..|parts| - 1]) + "," + parts[|parts| - 1]
  }

  /** Each part followed by a comma: what the printing loop accumulates. */
  function Terminated(parts: seq<string>): string
    decreases |parts|
  {
    if |parts| == 0 then "" else Terminated(parts[..|parts| - 1]) + parts[|parts| - 1] + ","
  }

  /** A non-empty list with a comma after every part is the joined list and one trailing comma. */
  lemma {:induction false} TerminatedIsJoined(parts: seq<string>)
    requires |parts| > 0
    ensures Terminated(parts) == Join(parts) + ","
    decreases |parts|
  {
    if |parts| > 1 {
      TerminatedIsJoined(parts[..|parts| - 1]);
    } else {
      assert parts[..0] == [];
    }
  }

  /**
    An opening bracket, the parts joined by commas and the closing bracket; for
    no parts only the closing bracket, since the character the printer removes
    as the trailing comma is then the opening bracket.
   */
  function Bracketed(open: char, parts: seq<string>, close: char): string {
    if |parts| == 0 then [close] else [open] + Join(parts) + [close]
  }

  /** The closing bracket is always there; the opening one only when there is a member. */
  lemma BracketedEnds(open: char, parts: seq<string>, close: char)
    requires open != close
    ensures var r := Bracketed(open, parts, close);
      |r| > 0 && r[|r| - 1] == close && (|parts| > 0 <==> r[0] == open)
  {
  }

  /** How the printer shows one dictionary entry. */
  function EntryText(key: string, printed: string): string {
    "\"" + key + "\": " + printed
  }

  /** What `print()` returns for a node. */
  function Printed(d: JSONDecoder, show: Show): string
    decreases d
  {
    match d.value
    case None => ""
    case Some(v) =>
      match v
      case Array(items) =>
        Bracketed('[', seq(|items|, i requires 0 <= i < |items| => Printed(items[i], show)), ']')
      case Dictionary(es) =>
        Bracketed('{', seq(|es|, i requires 0 <= i < |es| => EntryText(es[i].0, Printed(es[i].1, show))), '}')
      case Text(s) => "\"" + s + "\""
      case Null => "null"
      case _ => show(v)
  }

  /** Removing the last character of the accumulated text, then closing the bracket. */
  lemma ClosedAfterRemoval(open: char, parts: seq<string>, close: char)
    ensures |[open] + Terminated(parts)| > 0
    ensures ([open] + Terminated(parts))[..|[open] + Terminated(parts)| - 1] + [close] == Bracketed(open, parts, close)
  {
    if |parts| > 0 {
      TerminatedIsJoined(parts);
      assert [open] + Terminated(parts) == [open] + Join(parts) + ",";
    }
  }

  lemma TerminatedStep(open: char, parts: seq<string>, i: int, str: string)
    requires 0 <= i < |parts| && str == [open] + Terminated(parts[..i])
    ensures str + parts[i] + "," == [open] + Terminated(parts[..i + 1])
  {
    assert parts[..i + 1][..i] == parts[..i];
  }

  lemma Closed(open: char, parts: seq<string>, close: char, str: string)
    requires str == [open] + Terminated(parts[..|parts|])
    ensures |str| > 0 && str[..|str| - 1] + [close] == Bracketed(open, parts, close)
  {
    assert parts[..|parts|] == parts;
    ClosedAfterRemoval(open, parts, close);
  }

  /**
    `print()` as the source runs it: an array or a dictionary appends each
    member and a comma, then removes the last character and closes the bracket.
   */
  method Print(d: JSONDecoder, show: Show) returns (str: string)
    ensures str == Printed(d, show)
    decreases d, 1
  {
    match d.value {
      case Some(Array(arr)) =>
        str := PrintItems(arr, show);
      case Some(Dictionary(dict)) =>
        str := PrintEntries(dict, show);
      case Some(Text(s)) =>
        str := "\"" + s + "\"";
      case Some(Null) =>
        str := "null";
      case Some(v) =>
        str := show(v);
      case None =>
        str := "";
    }
  }

  method PrintItems(arr: seq<JSONDecoder>, show: Show) returns (str: string)
    ensures str == Bracketed('[', seq(|arr|, i requires 0 <= i < |arr| => Printed(arr[i], show)), ']')
    decreases JSONDecoder(Some(Array(arr))), 0
  {
    ghost var parts := seq(|arr|, i requires 0 <= i < |arr| => Printed(arr[i], show));
    str := "[";
    assert parts[..0] == [];
    for i := 0 to |arr|
      invariant str == "[" + Terminated(parts[..i])
    {
      assert arr[i] < JSONDecoder(Some(Array(arr)));
      var printed := Print(arr[i], show);
      assert printed == parts[i];
      TerminatedStep('[', parts, i, str);
      str := str + printed + ",";
    }
    Closed('[', parts, ']', str);
    str := str[..|str| - 1];
    str := str + "]";
  }

  /**
    The dictionary branch iterates over the stored pairs; in a node the
    initialiser built these are exactly the dictionary's entries, since their
    keys are distinct.
   */
  method PrintEntries(dict: seq<(string, JSONDecoder)>, show: Show) returns (str: string)
    ensures str == Bracketed('{', seq(|dict|, i requires 0 <= i < |dict| =>
      EntryText(dict[i].0, Printed(dict[i].1, show))), '}')
    decreases JSONDecoder(Some(Dictionary(dict))), 0
  {
    ghost var parts := seq(|dict|, i requires 0 <= i < |dict| => EntryText(dict[i].0, Printed(dict[i].1, show)));
    str := "{";
    assert parts[..0] == [];
    for i := 0 to |dict|
      invariant str == "{" + Terminated(parts[..i])
    {
      var (key, decoder) := dict[i];
      assert decoder < JSONDecoder(Some(Dictionary(dict)));
      var printed := Print(decoder, show);
      var entry := "\"" + key + "\": " + printed;
      assert entry == parts[i];
      TerminatedStep('{', parts, i, str);
      str := str + entry + ",";
    }
    Closed('{', parts, '}', str);
    str := str[..|str| - 1];
    str := str + "}";
  }

  /**
    An array or a dictionary always prints ending in its closing bracket, and
    starting with its opening bracket exactly when it has members.
   */
  lemma PrintedBrackets(d: JSONDecoder, show: Show)
    ensures AsArray(d).Some? ==> var r := Printed(d, show);
      |r| > 0 && r[|r| - 1] == ']' && (|AsArray(d).value| > 0 <==> r[0] == '[')
    ensures RawValue(d).Some? && RawValue(d).value.Dictionary? ==> var r := Printed(d, show);
      |r| > 0 && r[|r| - 1] == '}' && (|RawValue(d).value.entries| > 0 <==> r[0] == '{')
  {
    match d.value
    case Some(Array(items)) =>
      BracketedEnds('[', seq(|items|, i requires 0 <= i < |items| => Printed(items[i], show)), ']');
    case Some(Dictionary(es)) =>
      BracketedEnds('{', seq(|es|, i requires 0 <= i < |es| => EntryText(es[i].0, Printed(es[i].1, show))), '}');
    case _ =>
  }

  // ---------------------------------------------------------------- the empty-container case

  /**
    As written, an empty array prints as `]` and an empty dictionary as `}`:
    the removal meant for the trailing comma takes the opening bracket.
   */
  lemma EmptyContainersLoseOpeningBracket(show: Show)
    ensures Printed(JSONDecoder(Some(Array([]))), show) == "]"
    ensures Printed(JSONDecoder(Some(Dictionary([]))), show) == "}"
    ensures Printed(JSONDecoder(Some(Array([]))), show)[0] != '['
  {
  }

  /** Whether an empty array or dictionary occurs anywhere in the tree. */
  predicate HasEmptyContainer(d: JSONDecoder)
    decreases d
  {
    match d.value
    case Some(Array(items)) => |items| == 0 || exists i :: 0 <= i < |items| && HasEmptyContainer(items[i])
    case Some(Dictionary(es)) => |es| == 0 || exists i :: 0 <= i < |es| && HasEmptyContainer(es[i].1)
    case _ => false
  }

  /** The printer with the evidently intended empty case: brackets always enclose the joined members. */
  function IntendedPrinted(d: JSONDecoder, show: Show): (r: string)
    ensures RawValue(d).Some? && RawValue(d).value.Array? ==> |r| >= 2 && r[0] == '[' && r[|r| - 1] == ']'
    ensures RawValue(d).Some? && RawValue(d).value.Dictionary? ==> |r| >= 2 && r[0] == '{' && r[|r| - 1] == '}'
    decreases d
  {
    match d.value
    case None => ""
    case Some(v) =>
      match v
      case Array(items) =>
        "[" + Join(seq(|items|, i requires 0 <= i < |items| => IntendedPrinted(items[i], show))) + "]"
      case Dictionary(es) =>
        "{" + Join(seq(|es|, i requires 0 <= i < |es| => EntryText(es[i].0, IntendedPrinted(es[i].1, show)))) + "}"
      case Text(s) => "\"" + s + "\""
      case Null => "null"
      case _ => show(v)
  }

  /** An empty array prints as `[]` and an empty dictionary as `{}` there. */
  lemma IntendedEmptyContainers(show: Show)
    ensures IntendedPrinted(JSONDecoder(Some(Array([]))), show) == "[]"
    ensures IntendedPrinted(JSONDecoder(Some(Dictionary([]))), show) == "{}"
  {
  }

  /** On a tree without empty containers the printer as written already prints as intended. */
  lemma {:induction false} PrintedAsIntended(d: JSONDecoder, show: Show)
    requires !HasEmptyContainer(d)
    ensures Printed(d, show) == IntendedPrinted(d, show)
    decreases d
  {
    match d.value
    case Some(Array(items)) =>
      forall i | 0 <= i < |items| ensures Printed(items[i], show) == IntendedPrinted(items[i], show) {
        PrintedAsIntended(items[i], show);
      }
      assert seq(|items|, i requires 0 <= i < |items| => Printed(items[i], show))
          == seq(|items|, i requires 0 <= i < |items| => IntendedPrinted(items[i], show));
    case Some(Dictionary(es)) =>
      forall i | 0 <= i < |es| ensures Printed(es[i].1, show) == IntendedPrinted(es[i].1, show) {
        PrintedAsIntended(es[i].1, show);
      }
      assert seq(|es|, i requires 0 <= i < |es| => EntryText(es[i].0, Printed(es[i].1, show)))
          == seq(|es|, i requires 0 <= i < |es| => EntryText(es[i].0, IntendedPrinted(es[i].1, show)));
    case _ =>
  }
}
