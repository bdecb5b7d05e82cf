/**
  The sequence and dictionary helpers of `LinqExtensions`. A callback is an
  object whose `Invoke` records the element it is given, so that the order
  and number of invocations can be stated; `null` for a callback is Dafny's
  `null` of the class type, and `null` for the source is `None`.
 */
module LinqExtensions {
  import opened Wrappers

  /** An `IEnumerable<T>`: either a `T[]`, which `ForEach` returns as it is,
      or any other enumerable, given by the elements it yields. */
  datatype Enumerable<T> = ArrayOf(a: array<T>) | Sequence(elements: seq<T>)

  /** The elements an enumerable yields, in order. */
  function Elements<T>(source: Enumerable<T>): seq<T>
    reads if source.ArrayOf? then {source.a} else {}
  {
    match source
      case ArrayOf(a) => a[..]
      case Sequence(elements) => elements
  }

  /** An `Action<T>`: every invocation appends its argument to `invocations`. */
  class Action<T> {
    var invocations: seq<T>

    constructor ()
      ensures invocations == []
    {
      invocations := [];
    }

    method Invoke(item: T)
      modifies this
      ensures invocations == old(invocations) + [item]
    {
      invocations := invocations + [item];
    }
  }

  /** A `Func<T, R>`: the function `apply`, and every invocation appends its
      argument to `invocations`. */
  class Selector<T, R> {
    const apply: T -> R
    var invocations: seq<T>

    constructor (apply: T -> R)
      ensures this.apply == apply && invocations == []
    {
      this.apply := apply;
      invocations := [];
    }

    method Invoke(item: T) returns (r: R)
      modifies this
      ensures r == apply(item)
      ensures invocations == old(invocations) + [item]
    {
      invocations := invocations + [item];
      r := apply(item);
    }
  }

  /** `ForEach(source, selector)`: a null source is reported before a null
      selector; otherwise the selector is invoked once per element, in
      order, and its results are dropped. */
  method ForEachSelect<T, R>(source: Option<Enumerable<T>>, selector: Selector?<T, R>) returns (r: Result<()>)
    modifies selector
    ensures source == None ==> r == Throws(ArgumentNull("source")) && (selector != null ==> unchanged(selector))
    ensures source != None && selector == null ==> r == Throws(ArgumentNull("selector"))
    ensures source != None && selector != null ==>
      r == Ok(()) && selector.invocations == old(selector.invocations) + old(Elements(source.value))
  {
    if source == None {
      return Throws(ArgumentNull("source"));
    }
    if selector == null {
      return Throws(ArgumentNull("selector"));
    }
    var items := Elements(source.value);
    ghost var before := selector.invocations;
    for i := 0 to |items|
      invariant selector.invocations == before + items[..i]
    {
      var _ := selector.Invoke(items[i]);
      assert items[..i + 1] == items[..i] + [items[i]];
    }
    assert items[..|items|] == items;
    return Ok(());
  }

  /** `ForEach(source, action)`: a null source is reported before a null
      action. Otherwise the source is materialised (an array is kept as it
      is, anything else copied into a new array), the action is invoked once
      per element in order, and the array is returned. */
  method ForEach<T>(source: Option<Enumerable<T>>, action: Action?<T>) returns (r: Result<array<T>>)
    modifies action
    ensures source == None ==> r == Throws(ArgumentNull("source")) && (action != null ==> unchanged(action))
    ensures source != None && action == null ==> r == Throws(ArgumentNull("action"))
    ensures source != None && action != null ==>
      r.Ok? && r.value[..] == old(Elements(source.value)) &&
      action.invocations == old(action.invocations) + r.value[..]
    ensures source != None && action != null && source.value.ArrayOf? ==> r == Ok(source.value.a)
    ensures source != None && action != null && source.value.Sequence? ==> fresh(r.value)
  {
    if source == None {
      return Throws(ArgumentNull("source"));
    }
    if action == null {
      return Throws(ArgumentNull("action"));
    }
    var forEach: array<T>;
    match source.value {
      case ArrayOf(a) =>
        forEach := a;
      case Sequence(elements) =>
        forEach := new T[|elements|](i requires 0 <= i < |elements| => elements[i]);
    }
    ghost var items := forEach[..];
    assert items == Elements(source.value);
    ghost var before := action.invocations;
    for i := 0 to forEach.Length
      invariant forEach[..] == items
      invariant action.invocations == before + forEach[..i]
    {
      action.Invoke(forEach[i]);
      assert forEach[..i + 1] == forEach[..i] + [forEach[i]];
    }
    assert forEach[..forEach.Length] == forEach[..];
    return Ok(forEach);
  }

  /** The library's own test: `Enumerable.Range(0, 1000).Skip(1).Take(2)`
      sent through `ForEach` with an action that adds to a list. The action
      ran twice, and what `ForEach` returned equals what the action saw. */
  method ForEachSkipTake() returns (enumerated: seq<int>, listOfExecuted: seq<int>)
    ensures |listOfExecuted| == 2 && enumerated == listOfExecuted == [1, 2]
  {
    var range := seq(1000, i => i);
    var action := new Action<int>();
    var r := ForEach(Some(Sequence(range[1..][..2])), action);
    enumerated := r.value[..];
    listOfExecuted := action.invocations;
  }

  // ---------------------------------------------------------------------------
  // NotNull
  // ---------------------------------------------------------------------------

  /** `NotNull`: the `Where(t => t != null)` filter. The result holds
      exactly the values of the non-null elements. */
  function NotNull<T>(enumerable: seq<Option<T>>): (r: seq<T>)
    ensures |r| <= |enumerable|
    ensures forall i :: 0 <= i < |r| ==> Some(r[i]) in enumerable
    ensures forall i :: 0 <= i < |enumerable| && enumerable[i].Some? ==> enumerable[i].value in r
  {
    if enumerable == [] then []
    else
      var rest := NotNull(enumerable[1..]);
      assert forall i :: 1 <= i < |enumerable| ==> enumerable[i] == enumerable[1..][i - 1];
      match enumerable[0]
        case None => rest
        case Some(x) =>
          assert forall i :: 1 <= i < |[x] + rest| ==> ([x] + rest)[i] == rest[i - 1];
          [x] + rest
  }

  /** The filter keeps the order: filtering a concatenation concatenates the
      filtered parts. */
  lemma {:induction false} NotNullAppend<T>(a: seq<Option<T>>, b: seq<Option<T>>)
    ensures NotNull(a + b) == NotNull(a) + NotNull(b)
    decreases |a|
  {
    if a == [] {
      assert a + b == b;
    } else {
      assert (a + b)[1..] == a[1..] + b;
      NotNullAppend(a[1..], b);
    }
  }

  /** A null element is dropped and a non-null one kept, so the result is
      the non-null values in their original order. */
  lemma NotNullOne<T>(x: Option<T>)
    ensures NotNull([x]) == if x.Some? then [x.value] else []
  {
    assert [x][1..] == [];
  }

  /** Without nulls nothing is dropped. */
  lemma {:induction false} NotNullOfValues<T>(values: seq<T>)
    ensures NotNull(seq(|values|, i requires 0 <= i < |values| => Some(values[i]))) == values
    decreases |values|
  {
    if values != [] {
      var wrapped := seq(|values|, i requires 0 <= i < |values| => Some(values[i]));
      var tail := values[1..];
      NotNullOfValues(tail);
      assert wrapped[1..] == seq(|tail|, i requires 0 <= i < |tail| => Some(tail[i]));
      NotNullHead(wrapped);
      assert values == [values[0]] + tail;
    }
  }

  lemma NotNullHead<T>(s: seq<Option<T>>)
    requires s != [] && s[0].Some?
    ensures NotNull(s) == [s[0].value] + NotNull(s[1..])
  {
  }

  // ---------------------------------------------------------------------------
  // ValueNotNull
  // ---------------------------------------------------------------------------

  /** `ValueNotNull`: a new dictionary of the entries whose value is not
      null. Its keys are exactly the keys with a non-null value, and each
      keeps its value. */
  function ValueNotNull<K(!new), V>(dictionary: map<K, Option<V>>): (r: map<K, V>)
    ensures forall k :: k in r <==> k in dictionary && dictionary[k].Some?
    ensures forall k :: k in r ==> dictionary[k] == Some(r[k])
  {
    map k | k in dictionary && dictionary[k].Some? :: dictionary[k].value
  }

  /** Every value of a dictionary seen as possibly null. */
  function Nullable<K(!new), V>(dictionary: map<K, V>): (r: map<K, Option<V>>)
    ensures r.Keys == dictionary.Keys
    ensures forall k :: k in r ==> r[k] == Some(dictionary[k])
  {
    map k | k in dictionary :: Some(dictionary[k])
  }

  /** A dictionary without null values comes back unchanged. */
  lemma ValueNotNullOfNullable<K(!new), V>(dictionary: map<K, V>)
    ensures ValueNotNull(Nullable(dictionary)) == dictionary
  {
  }

  /** Removing the null values and widening back gives the input exactly
      when it had no null value. */
  lemma NullableOfValueNotNull<K(!new), V>(dictionary: map<K, Option<V>>)
    ensures Nullable(ValueNotNull(dictionary)) == dictionary <==>
      forall k :: k in dictionary ==> dictionary[k].Some?
  {
    if forall k :: k in dictionary ==> dictionary[k].Some? {
      var back := Nullable(ValueNotNull(dictionary));
      assert back.Keys == dictionary.Keys;
    } else {
      var k :| k in dictionary && dictionary[k].None?;
      assert k !in Nullable(ValueNotNull(dictionary));
    }
  }
}
