/** The tuple values the driver hands out (IDbTuple: the sealed DbTuple classes of arity 1
    to 7, and LargeTuple for any arity), and DbTuple.Convert, which turns a System.Tuple or
    System.ValueTuple of arity 1 to 7 into a DbTuple. Runtime types are described by a
    datatype in place of reflection, and the compiled extractor by the list of members it
    reads. */
module Tuples {
  import opened Errors

  // ---------------------------------------------------------------------------
  // IDbTuple values

  /** An IDbTuple: a DbTuple<T1..Tn> (its type arguments are the names of T1..Tn) or a
      LargeTuple over an object array. */
  datatype DbTupleValue<V> =
    | DbTuple(typeArguments: seq<string>, items: seq<V>)
    | LargeTuple(items: seq<V>)
  {
    /** IDbTuple.Length. */
    function Length(): nat {
      |items|
    }

    /** The IDbTuple indexer: Item{index + 1}, or IndexOutOfRangeException. */
    function Item(index: int): (r: Result<V>)
      ensures r.Ok? <==> 0 <= index < Length()
      ensures r.Ok? ==> r.value == items[index]
      ensures r.Err? ==> r.error == IndexOutOfRange
    {
      if 0 <= index < |items| then Ok(items[index]) else Err(IndexOutOfRange)
    }
  }

  /** The arities for which a DbTuple class exists. */
  predicate DbTupleArity(n: int) {
    1 <= n <= 7
  }

  /** A DbTuple has one item per type argument and an arity the classes cover. */
  predicate WellFormed<V>(t: DbTupleValue<V>) {
    t.DbTuple? ==> DbTupleArity(|t.items|) && |t.typeArguments| == |t.items|
  }

  /** DbTuple.Create<T1..Tn>(item1, ..., itemn): one overload per arity 1 to 7. */
  function Create<V>(typeArguments: seq<string>, items: seq<V>): (t: DbTupleValue<V>)
    requires DbTupleArity(|items|) && |typeArguments| == |items|
    ensures WellFormed(t)
  {
    DbTuple(typeArguments, items)
  }

  /** A created tuple holds the arguments in order: position i answers the (i+1)-th item,
      and every other position is out of range. */
  lemma CreateKeepsOrder<V>(typeArguments: seq<string>, items: seq<V>, i: int)
    requires DbTupleArity(|items|) && |typeArguments| == |items|
    ensures var t := Create(typeArguments, items);
            && t.Length() == |items| && t.typeArguments == typeArguments
            && (0 <= i < |items| ==> t.Item(i) == Ok(items[i]))
            && (i < 0 || i >= |items| ==> t.Item(i) == Err(IndexOutOfRange))
  {
  }

  /** A LargeTuple has no arity cap (zero items included), its length is the number of
      items and position i holds the i-th item. */
  lemma LargeTupleIndexes<V>(items: seq<V>, i: int)
    ensures var t := LargeTuple(items);
            && WellFormed(t) && t.Length() == |items|
            && (0 <= i < |items| ==> t.Item(i) == Ok(items[i]))
            && (i < 0 || i >= |items| ==> t.Item(i) == Err(IndexOutOfRange))
  {
  }

  /** The numbers 1..count, as `select tuple(1, ..., count)` returns them. */
  function Range(count: nat): (r: seq<int>)
    ensures |r| == count
  {
    seq(count, i requires 0 <= i < count => i + 1)
  }

  /** A tuple of 1..count reports `count` as its length and gives 1..count position by
      position, in either representation. */
  lemma RangeTuple(count: nat, typeArguments: seq<string>, i: int)
    requires 0 <= i < count
    ensures LargeTuple(Range(count)).Length() == count
    ensures LargeTuple(Range(count)).Item(i) == Ok(i + 1)
    ensures DbTupleArity(count) && |typeArguments| == count ==> Create(typeArguments, Range(count)).Item(i) == Ok(i + 1)
  {
  }

  // ---------------------------------------------------------------------------
  // Runtime types

  /** The generic type definitions the converter looks for: System.Tuple<...> and
      System.ValueTuple<...> of any arity (the arity is the number of type arguments), and
      any other generic definition. */
  datatype GenericDefinition = TupleDefinition | ValueTupleDefinition | OtherDefinition(name: string)

  /** A runtime type: whether it is a value type, its generic type definition when it is a
      constructed generic type, its type arguments, and its base type. */
  datatype ClrType = ClrType(
    name: string,
    isValueType: bool,
    definition: Option<GenericDefinition>,
    arguments: seq<string>,
    baseType: Option<ClrType>)

  /** TupleTypes.Contains(type.GetGenericTypeDefinition()): Tuple<> through Tuple<,,,,,,>. */
  predicate IsListedTuple(t: ClrType) {
    t.definition == Some(TupleDefinition) && DbTupleArity(|t.arguments|)
  }

  /** ValueTupleTypes.Contains(type.GetGenericTypeDefinition()). */
  predicate IsListedValueTuple(t: ClrType) {
    t.definition == Some(ValueTupleDefinition) && DbTupleArity(|t.arguments|)
  }

  /** The reference-type part of FindTupleType: the first listed Tuple on the chain `t`,
      its base, its base's base and so on. */
  function FirstTupleInChain(t: Option<ClrType>): Option<ClrType>
    decreases t
  {
    match t
    case None => None
    case Some(c) => if IsListedTuple(c) then Some(c) else FirstTupleInChain(c.baseType)
  }

  /** FindTupleType: a value type matches only itself, a listed ValueTuple; a reference type
      matches the first listed Tuple on its base chain. */
  function FindTupleTypeSpec(t: ClrType): Option<ClrType> {
    if t.isValueType then (if IsListedValueTuple(t) then Some(t) else None)
    else FirstTupleInChain(Some(t))
  }

  /** The type, its base, its base's base, up to the root. */
  function Chain(t: ClrType): (r: seq<ClrType>)
    ensures |r| >= 1 && r[0] == t
    decreases t
  {
    [t] + (match t.baseType case None => [] case Some(b) => Chain(b))
  }

  /** The chain walk finds the first listed Tuple on the chain, and nothing exactly when
      the chain holds none. */
  lemma {:induction false} FirstTupleInChainFinds(t: ClrType)
    ensures var r := FirstTupleInChain(Some(t));
            && (r.None? <==> forall k :: 0 <= k < |Chain(t)| ==> !IsListedTuple(Chain(t)[k]))
            && (r.Some? ==> exists k :: 0 <= k < |Chain(t)| && Chain(t)[k] == r.value && IsListedTuple(r.value)
                                          && forall j :: 0 <= j < k ==> !IsListedTuple(Chain(t)[j]))
    decreases t
  {
    var c := Chain(t);
    ChainOfBase(t);
    if IsListedTuple(t) {
      assert c[0] == t;
    } else if t.baseType.Some? {
      var b := t.baseType.value;
      FirstTupleInChainFinds(b);
      var r := FirstTupleInChain(Some(b));
      assert FirstTupleInChain(Some(t)) == r;
      if r.Some? {
        var k :| 0 <= k < |Chain(b)| && Chain(b)[k] == r.value && IsListedTuple(r.value)
                 && forall j :: 0 <= j < k ==> !IsListedTuple(Chain(b)[j]);
        assert c[k + 1] == r.value;
      } else {
        assert forall j :: 0 <= j < |c| ==> !IsListedTuple(c[j]) by {
          forall j | 0 <= j < |c| ensures !IsListedTuple(c[j]) {
            if j > 0 {
              assert c[j] == Chain(b)[j - 1];
            }
          }
        }
      }
    }
  }

  /** The chain of a type is the type followed by its base's chain. */
  lemma ChainOfBase(t: ClrType)
    ensures t.baseType.None? ==> Chain(t) == [t]
    ensures t.baseType.Some? ==>
      && |Chain(t)| == 1 + |Chain(t.baseType.value)|
      && forall j :: 1 <= j < |Chain(t)| ==> Chain(t)[j] == Chain(t.baseType.value)[j - 1]
  {
  }

  /** A value type never looks at its base type: it matches itself exactly when it is a
      listed ValueTuple, whatever its base. */
  lemma ValueTypeIgnoresBase(t: ClrType, other: Option<ClrType>)
    requires t.isValueType
    ensures FindTupleTypeSpec(t.(baseType := other)).Some? <==> FindTupleTypeSpec(t).Some?
    ensures FindTupleTypeSpec(t).Some? <==> IsListedValueTuple(t)
    ensures FindTupleTypeSpec(t).Some? ==> FindTupleTypeSpec(t) == Some(t)
  {
    var u := t.(baseType := other);
    assert u.isValueType && u.definition == t.definition && u.arguments == t.arguments;
  }

  /** A class that is not itself a listed Tuple converts like its base class. */
  lemma SubclassFindsBaseTuple(t: ClrType)
    requires !t.isValueType && !IsListedTuple(t) && t.baseType.Some? && !t.baseType.value.isValueType
    ensures FindTupleTypeSpec(t) == FindTupleTypeSpec(t.baseType.value)
  {
  }

  /** Whatever type is found is a listed Tuple or ValueTuple of arity 1 to 7, matching the
      value-ness of the type searched (a Tuple<...> of eight or more never matches). */
  lemma {:induction false} FoundTypeIsListed(t: ClrType)
    ensures var r := FindTupleTypeSpec(t);
            r.Some? ==> DbTupleArity(|r.value.arguments|)
                        && (t.isValueType ==> IsListedValueTuple(r.value))
                        && (!t.isValueType ==> IsListedTuple(r.value))
  {
    if !t.isValueType {
      FirstTupleInChainFinds(t);
    }
  }

  /** FindTupleType's walk up the base chain. */
  method FindTupleType(t: ClrType) returns (r: Option<ClrType>)
    ensures r == FindTupleTypeSpec(t)
  {
    if t.isValueType {
      return if IsListedValueTuple(t) then Some(t) else None;
    }
    var current: Option<ClrType> := Some(t);
    while current.Some?
      invariant FirstTupleInChain(current) == FindTupleTypeSpec(t)
      decreases current
    {
      if IsListedTuple(current.value) {
        return current;
      }
      current := current.value.baseType;
    }
    return None;
  }

  // ---------------------------------------------------------------------------
  // The extractor

  /** The public member a compiled extractor reads: the field Item{position + 1} of a
      ValueTuple, or the property Item{position + 1} of a Tuple. */
  datatype Member = Field(position: nat) | Property(position: nat)

  /** What CreateFromTuple compiles: the DbTuple<...> type it constructs (by its type
      arguments) and the members it passes to the constructor, in order. */
  datatype Extractor = Extractor(targetArguments: seq<string>, members: seq<Member>)

  /** GetDbTupleType: the DbTuple generic definition of an arity, or NotSupportedException. */
  function GetDbTupleType(length: int): (r: Result<nat>)
    ensures r.Ok? <==> DbTupleArity(length)
    ensures r.Ok? ==> r.value == length
    ensures r.Err? ==> r.error == NotSupported(NotSupportedMessage)
  {
    if DbTupleArity(length) then Ok(length) else Err(NotSupported(NotSupportedMessage))
  }

  /** The message of a NotSupportedException created without one. */
  const NotSupportedMessage: string := "Specified method is not supported."

  /** The member read for position i. */
  function MemberAt(isValueTuple: bool, i: nat): Member {
    if isValueTuple then Field(i) else Property(i)
  }

  /** CreateFromTuple as a value: the DbTuple over the type's own type arguments, reading
      Item1 through Itemn, fields for a value tuple and properties otherwise. */
  function ExtractorFor(tupleType: ClrType): (r: Result<Extractor>)
    ensures r.Ok? <==> DbTupleArity(|tupleType.arguments|)
    ensures r.Ok? ==> r.value.targetArguments == tupleType.arguments
                      && |r.value.members| == |tupleType.arguments|
                      && forall i :: 0 <= i < |r.value.members| ==> r.value.members[i] == MemberAt(tupleType.isValueType, i)
  {
    var length := |tupleType.arguments|;
    match GetDbTupleType(length)
    case Err(e) => Err(e)
    case Ok(_) => Ok(Extractor(tupleType.arguments, seq(length, i requires 0 <= i < length => MemberAt(tupleType.isValueType, i))))
  }

  /** CreateFromTuple: the loop that lists the members to read. */
  method CreateFromTuple(tupleType: ClrType) returns (r: Result<Extractor>)
    ensures r == ExtractorFor(tupleType)
  {
    var isValueTuple := tupleType.isValueType;
    var typeArguments := tupleType.arguments;
    var length := |typeArguments|;
    var targetType := GetDbTupleType(length);
    if targetType.Err? {
      return Err(targetType.error);
    }
    var args := new Member[length];
    for i := 0 to length
      invariant forall k :: 0 <= k < i ==> args[k] == MemberAt(isValueTuple, k)
    {
      args[i] := if isValueTuple then Field(i) else Property(i);
    }
    assert args[..] == seq(length, i requires 0 <= i < length => MemberAt(isValueTuple, i));
    r := Ok(Extractor(typeArguments, args[..]));
  }

  /** Running an extractor on a tuple whose Item1..Itemn are `items`. */
  function Invoke<V>(e: Extractor, items: seq<V>): DbTupleValue<V>
    requires forall i :: 0 <= i < |e.members| ==> e.members[i].position < |items|
  {
    DbTuple(e.targetArguments, seq(|e.members|, i requires 0 <= i < |e.members| => items[e.members[i].position]))
  }

  // ---------------------------------------------------------------------------
  // Conversion

  /** A value handed to the converter: null, something already implementing IDbTuple, or an
      instance of a runtime type, with the values of its Item1..Itemn members in order when
      its type is a tuple. */
  datatype Obj<V> = Null | Tuple(tuple: DbTupleValue<V>) | Instance(runtimeType: ClrType, items: seq<V>)

  /** An instance whose type converts carries one value per type argument of the tuple
      type found. */
  predicate Carries<V>(value: Obj<V>) {
    value.Instance? ==>
      var found := FindTupleTypeSpec(value.runtimeType);
      found.Some? ==> |value.items| == |found.value.arguments|
  }

  /** What TryConvert produces: nothing for null, an IDbTuple unchanged, a tuple through the
      extractor of the tuple type found, and nothing for every other value. */
  function ConvertSpec<V>(value: Obj<V>): Option<DbTupleValue<V>>
    requires Carries(value)
  {
    match value
    case Null => None
    case Tuple(t) => Some(t)
    case Instance(runtimeType, items) =>
      match FindTupleTypeSpec(runtimeType)
      case None => None
      case Some(found) =>
        FoundTypeIsListed(runtimeType);
        Some(Invoke(ExtractorFor(found).value, items))
  }

  /** Converting a Tuple or ValueTuple gives the DbTuple that Create builds from the same
      type arguments and items, the source's Item{i+1} at position i. */
  lemma ConvertMatchesCreate<V>(value: Obj<V>)
    requires Carries(value) && value.Instance? && FindTupleTypeSpec(value.runtimeType).Some?
    ensures var found := FindTupleTypeSpec(value.runtimeType).value;
            && DbTupleArity(|value.items|)
            && ConvertSpec(value) == Some(Create(found.arguments, value.items))
  {
    var found := FindTupleTypeSpec(value.runtimeType).value;
    FoundTypeIsListed(value.runtimeType);
    var e := ExtractorFor(found).value;
    assert Invoke(e, value.items).items == value.items;
  }

  /** Null and values of no tuple type do not convert; an IDbTuple converts to itself. */
  lemma ConvertCases<V>(value: Obj<V>)
    requires Carries(value)
    ensures value.Null? ==> ConvertSpec(value).None?
    ensures value.Tuple? ==> ConvertSpec(value) == Some(value.tuple)
    ensures value.Instance? ==> (ConvertSpec(value).Some? <==> FindTupleTypeSpec(value.runtimeType).Some?)
  {
  }

  /** The message of the ArgumentException Convert throws. */
  const NotConvertibleMessage: string := "The provided value could not be converted to IDbTuple."

  /** The FactoryCache: one compiled extractor per tuple type found (the matched Tuple or
      ValueTuple type, not the subclass it was found from), each built once. */
  class FactoryCache {
    var factories: map<ClrType, Extractor>
    /** The types CreateFromTuple has run for, in order. */
    ghost var built: seq<ClrType>

    ghost predicate Valid()
      reads this
    {
      && (forall t :: t in factories ==> ExtractorFor(t) == Ok(factories[t]))
      && (forall i, j :: 0 <= i < j < |built| ==> built[i] != built[j])
      && (forall t :: t in factories <==> t in built)
    }

    constructor ()
      ensures Valid() && factories == map[] && built == []
    {
      factories := map[];
      built := [];
    }

    /** GetOrAdd(tupleType, DbTupleFactory).Value: the cached extractor, or a new one built
        and stored. */
    method GetOrAdd(tupleType: ClrType) returns (e: Extractor)
      requires Valid() && DbTupleArity(|tupleType.arguments|)
      modifies this
      ensures Valid() && ExtractorFor(tupleType) == Ok(e)
      ensures factories == old(factories)[tupleType := e]
      ensures built == old(built) + (if tupleType in old(factories) then [] else [tupleType])
    {
      if tupleType in factories {
        e := factories[tupleType];
        return;
      }
      var created := CreateFromTuple(tupleType);
      e := created.value;
      factories := factories[tupleType := e];
      built := built + [tupleType];
    }
  }

  /** TryConvert: the IDbTuple for `value`, and whether there is one; a tuple type's
      extractor comes from the cache. */
  method TryConvert<V>(cache: FactoryCache, value: Obj<V>) returns (success: bool, tuple: Option<DbTupleValue<V>>)
    requires cache.Valid() && Carries(value)
    modifies cache
    ensures cache.Valid()
    ensures tuple == ConvertSpec(value) && success == tuple.Some?
    ensures match value
            case Instance(runtimeType, _) =>
              var found := FindTupleTypeSpec(runtimeType);
              if found.Some? then
                && found.value in cache.factories
                && ExtractorFor(found.value) == Ok(cache.factories[found.value])
                && cache.factories == old(cache.factories)[found.value := cache.factories[found.value]]
                && cache.built == old(cache.built) + (if found.value in old(cache.factories) then [] else [found.value])
              else cache.factories == old(cache.factories) && cache.built == old(cache.built)
            case _ => cache.factories == old(cache.factories) && cache.built == old(cache.built)
  {
    if value.Null? {
      return false, None;
    }
    if value.Tuple? {
      return true, Some(value.tuple);
    }
    var tupleType := FindTupleType(value.runtimeType);
    if tupleType.Some? {
      FoundTypeIsListed(value.runtimeType);
      var factory := cache.GetOrAdd(tupleType.value);
      return true, Some(Invoke(factory, value.items));
    }
    return false, None;
  }

  /** Convert: the TryConvert result, or ArgumentException("value") exactly when there is
      none. */
  method Convert<V>(cache: FactoryCache, value: Obj<V>) returns (r: Result<DbTupleValue<V>>)
    requires cache.Valid() && Carries(value)
    modifies cache
    ensures cache.Valid()
    ensures ConvertSpec(value).Some? ==> r == Ok(ConvertSpec(value).value)
    ensures ConvertSpec(value).None? ==> r == Err(ArgumentError("value"))
  {
    var success, tuple := TryConvert(cache, value);
    if success {
      return Ok(tuple.value);
    }
    return Err(ArgumentError("value"));
  }
}
