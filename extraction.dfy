/**
  The bulk extractors `getArray` and `getDictionary` of `JSONDecoder`: they
  copy into the caller's `inout` collection every child whose raw value has
  the requested type `T`.  The test `decoder.value as? T` is passed in as
  `cast`; the `inout` parameter is an in-parameter `collect` and an
  out-parameter `collect'` holding its new value.
 */
module Extraction {
  import opened Wrappers
  import opened JSONJoy

  /** `decoder.value as? T`: nothing for an absent value, otherwise the cast. */
  function Matched<T>(child: JSONDecoder, cast: Value -> Option<T>): (r: Option<T>)
    ensures RawValue(child).None? ==> r.None?
    ensures RawValue(child).Some? ==> r == cast(RawValue(child).value)
  {
    match RawValue(child)
    case None => None
    case Some(v) => cast(v)
  }

  function Listed<T>(o: Option<T>): seq<T> {
    match o
    case Some(x) => [x]
    case None => []
  }

  // ---------------------------------------------------------------- getArray

  /** The cast values of the children that have type `T`, in the children's order. */
  function Filtered<T>(items: seq<JSONDecoder>, cast: Value -> Option<T>): (r: seq<T>)
    ensures |r| <= |items|
    decreases |items|
  {
    if |items| == 0 then []
    else Filtered(items[..|items| - 1], cast) + Listed(Matched(items[|items| - 1], cast))
  }

  /** Filtering distributes over concatenation: what is kept keeps its order. */
  lemma {:induction false} FilteredAppend<T>(a: seq<JSONDecoder>, b: seq<JSONDecoder>, cast: Value -> Option<T>)
    ensures Filtered(a + b, cast) == Filtered(a, cast) + Filtered(b, cast)
    decreases |b|
  {
    if |b| > 0 {
      var b' := b[..|b| - 1];
      FilteredAppend(a, b', cast);
      assert (a + b)[..|a + b| - 1] == a + b';
      assert (a + b)[|a + b| - 1] == b[|b| - 1];
    } else {
      assert a + b == a;
    }
  }

  /** A child that has type `T` is kept, as its cast value; any other child is dropped. */
  lemma FilteredSingle<T>(c: JSONDecoder, cast: Value -> Option<T>)
    ensures Filtered([c], cast) == Listed(Matched(c, cast))
  {
    assert [c][..0] == [];
  }

  /** Every value kept is the cast of some child. */
  lemma {:induction false} FilteredFrom<T>(items: seq<JSONDecoder>, cast: Value -> Option<T>, x: T)
    requires x in Filtered(items, cast)
    ensures exists i :: 0 <= i < |items| && Matched(items[i], cast) == Some(x)
    decreases |items|
  {
    var front := items[..|items| - 1];
    if x in Filtered(front, cast) {
      FilteredFrom(front, cast, x);
      var i :| 0 <= i < |front| && Matched(front[i], cast) == Some(x);
      assert items[i] == front[i];
    } else {
      assert Matched(items[|items| - 1], cast) == Some(x);
    }
  }

  /** When every child has type `T`, all of them are kept, in order. */
  lemma {:induction false} FilteredAll<T>(items: seq<JSONDecoder>, cast: Value -> Option<T>)
    requires forall i :: 0 <= i < |items| ==> Matched(items[i], cast).Some?
    ensures |Filtered(items, cast)| == |items|
    ensures forall i :: 0 <= i < |items| ==> Filtered(items, cast)[i] == Matched(items[i], cast).value
    decreases |items|
  {
    if |items| > 0 {
      var front := items[..|items| - 1];
      FilteredAll(front, cast);
    }
  }

  /** When no child has type `T`, nothing is kept. */
  lemma {:induction false} FilteredNone<T>(items: seq<JSONDecoder>, cast: Value -> Option<T>)
    requires forall i :: 0 <= i < |items| ==> Matched(items[i], cast).None?
    ensures Filtered(items, cast) == []
    decreases |items|
  {
    if |items| > 0 {
      FilteredNone(items[..|items| - 1], cast);
    }
  }

  /**
    `getArray(&collect)`: on an array node `collect` becomes non-nil, keeps what
    it held and gains the children of type `T` in order; on any other node it
    is left as it was.
   */
  method GetArray<T>(d: JSONDecoder, cast: Value -> Option<T>, collect: Option<seq<T>>)
    returns (collect': Option<seq<T>>)
    ensures AsArray(d).None? ==> collect' == collect
    ensures AsArray(d).Some? ==> collect' == Some(collect.GetOr([]) + Filtered(AsArray(d).value, cast))
  {
    collect' := collect;
    if d.value.Some? && d.value.value.Array? {
      var items := d.value.value.items;
      if collect'.None? {
        collect' := Some([]);
      }
      ghost var before := collect'.value;
      assert before == collect.GetOr([]);
      for i := 0 to |items|
        invariant collect'.Some? && collect'.value == before + Filtered(items[..i], cast)
      {
        FilteredStep(items, i, cast);
        match Matched(items[i], cast) {
          case Some(obj) => collect' := Some(collect'.value + [obj]);
          case None =>
        }
      }
      assert items[..|items|] == items;
    }
  }

  lemma FilteredStep<T>(items: seq<JSONDecoder>, i: int, cast: Value -> Option<T>)
    requires 0 <= i < |items|
    ensures Filtered(items[..i + 1], cast) == Filtered(items[..i], cast) + Listed(Matched(items[i], cast))
  {
    assert items[..i + 1][..i] == items[..i];
  }

  // ---------------------------------------------------------------- getDictionary

  /** `collect` after storing, pair by pair, the cast value of every child of type `T` under its key. */
  function Inserted<T>(collect: map<string, T>, es: seq<(string, JSONDecoder)>, cast: Value -> Option<T>)
    : map<string, T>
    decreases |es|
  {
    if |es| == 0 then collect
    else
      var before := Inserted(collect, es[..|es| - 1], cast);
      var last := es[|es| - 1];
      match Matched(last.1, cast)
      case Some(obj) => before[last.0 := obj]
      case None => before
  }

  /** The keys whose child has type `T`. */
  function MatchingKeys<T>(es: seq<(string, JSONDecoder)>, cast: Value -> Option<T>): set<string> {
    set i | 0 <= i < |es| && Matched(es[i].1, cast).Some? :: es[i].0
  }

  lemma MatchingKeysSnoc<T>(es: seq<(string, JSONDecoder)>, cast: Value -> Option<T>)
    requires |es| > 0
    ensures MatchingKeys(es, cast) == MatchingKeys(es[..|es| - 1], cast) +
      (if Matched(es[|es| - 1].1, cast).Some? then {es[|es| - 1].0} else {})
  {
    var front, last := es[..|es| - 1], es[|es| - 1];
    forall k | k in MatchingKeys(es, cast)
      ensures k in MatchingKeys(front, cast) || (Matched(last.1, cast).Some? && k == last.0)
    {
      var i :| 0 <= i < |es| && Matched(es[i].1, cast).Some? && es[i].0 == k;
      if i < |front| { assert front[i] == es[i]; }
    }
    forall k | k in MatchingKeys(front, cast) ensures k in MatchingKeys(es, cast) {
      var i :| 0 <= i < |front| && Matched(front[i].1, cast).Some? && front[i].0 == k;
      assert es[i] == front[i];
    }
  }

  /** The result has the old keys and the keys whose child has type `T`. */
  lemma {:induction false} InsertedKeys<T>(collect: map<string, T>, es: seq<(string, JSONDecoder)>, cast: Value -> Option<T>)
    ensures Inserted(collect, es, cast).Keys == collect.Keys + MatchingKeys(es, cast)
    decreases |es|
  {
    if |es| > 0 {
      InsertedKeys(collect, es[..|es| - 1], cast);
      MatchingKeysSnoc(es, cast);
    }
  }

  /**
    With distinct keys, each key whose child has type `T` holds that child's
    cast value, inserted or overwriting what `collect` held.
   */
  lemma {:induction false} InsertedMatching<T>(collect: map<string, T>, es: seq<(string, JSONDecoder)>, cast: Value -> Option<T>)
    requires DistinctKeys(es)
    ensures forall i :: 0 <= i < |es| && Matched(es[i].1, cast).Some? ==>
      es[i].0 in Inserted(collect, es, cast) && Inserted(collect, es, cast)[es[i].0] == Matched(es[i].1, cast).value
    decreases |es|
  {
    if |es| > 0 {
      var front := es[..|es| - 1];
      var last := es[|es| - 1];
      InsertedMatching(collect, front, cast);
      forall i | 0 <= i < |front| && Matched(front[i].1, cast).Some?
        ensures es[i].0 in Inserted(collect, es, cast) && Inserted(collect, es, cast)[es[i].0] == Matched(es[i].1, cast).value
      {
        assert es[i] == front[i];
        assert es[i].0 != last.0;
      }
    }
  }

  /** Every entry of `collect` under a key no child of type `T` has is left as it was. */
  lemma {:induction false} InsertedOthers<T>(collect: map<string, T>, es: seq<(string, JSONDecoder)>, cast: Value -> Option<T>)
    ensures forall k :: k in collect && k !in MatchingKeys(es, cast) ==>
      k in Inserted(collect, es, cast) && Inserted(collect, es, cast)[k] == collect[k]
    decreases |es|
  {
    if |es| > 0 {
      InsertedOthers(collect, es[..|es| - 1], cast);
      MatchingKeysSnoc(es, cast);
    }
  }

  /**
    In a normal dictionary node, which has distinct keys, each entry of the
    `dictionary` view whose child has type `T` is stored under its key.
   */
  lemma InsertedFromDictionary<T>(collect: map<string, T>, d: JSONDecoder, cast: Value -> Option<T>)
    requires Normal(d) && AsDictionary(d).Some?
    ensures forall key :: key in AsDictionary(d).value && Matched(AsDictionary(d).value[key], cast).Some? ==>
      key in Inserted(collect, RawValue(d).value.entries, cast) &&
      Inserted(collect, RawValue(d).value.entries, cast)[key] == Matched(AsDictionary(d).value[key], cast).value
  {
    var es := RawValue(d).value.entries;
    var m := AsDictionary(d).value;
    ToMapDistinct(es);
    InsertedMatching(collect, es, cast);
    forall key | key in m && Matched(m[key], cast).Some?
      ensures key in Inserted(collect, es, cast) && Inserted(collect, es, cast)[key] == Matched(m[key], cast).value
    {
      assert key in KeySet(es);
      var i :| 0 <= i < |es| && es[i].0 == key;
      assert m[key] == es[i].1;
    }
  }

  /**
    `getDictionary(&collect)`: on a dictionary node `collect` becomes non-nil
    and each child of type `T` is stored under its key; on any other node it
    is left as it was.  It iterates over the stored pairs, which in a node the
    initialiser built are exactly the entries of `dictionary` (see
    `InsertedFromDictionary`).
   */
  method GetDictionary<T>(d: JSONDecoder, cast: Value -> Option<T>, collect: Option<map<string, T>>)
    returns (collect': Option<map<string, T>>)
    ensures AsDictionary(d).None? ==> collect' == collect
    ensures AsDictionary(d).Some? ==>
      collect' == Some(Inserted(collect.GetOr(map[]), RawValue(d).value.entries, cast))
  {
    collect' := collect;
    if d.value.Some? && d.value.value.Dictionary? {
      var dictionary := d.value.value.entries;
      if collect'.None? {
        collect' := Some(map[]);
      }
      for i := 0 to |dictionary|
        invariant collect' == Some(Inserted(collect.GetOr(map[]), dictionary[..i], cast))
      {
        assert dictionary[..i + 1][..i] == dictionary[..i];
        var (key, decoder) := dictionary[i];
        match Matched(decoder, cast) {
          case Some(obj) => collect' := Some(collect'.value[key := obj]);
          case None =>
        }
      }
      assert dictionary[..|dictionary|] == dictionary;
    }
  }
}
