/**
 * The result of one decision evaluation: an insertion-ordered map from output
 * name to typed value. The evaluator fills it through `PutValue`; callers read
 * it through typed accessors (`GetValueTyped`, first/single value) and through
 * a type-erased map view whose raw values are the typed values'
 * `GetValue()`. The mutators of that view itself (`put`, `remove`, `putAll`,
 * `clear`) and an entry's `setValue` fail. The key set and the typed values
 * are handed out here as snapshots (see KeySet and ValuesTyped).
 */
module DecisionOutputs {
  import opened Values
  import opened LinkedMaps

  /** The name of a decision output; None is Java's null, which the backing map accepts as a key. */
  type Name = Option<string>

  /** The message of the mutators of a decision output. */
  const ImmutableOutput := "decision output is immutable"

  /** The message of an entry's `setValue`. */
  const ImmutableEntry := "decision output entry is immutable"

  /** An entry of the type-erased entry set: a name and the typed value stored under it. */
  datatype ValueEntry = ValueEntry(key: Name, typedValue: TypedRef) {

    /** The name of the entry; together with the typed value it is the whole entry. */
    function GetKey(): (k: Name)
      ensures ValueEntry(k, typedValue) == this
    {
      key
    }

    /** The raw value of the entry; a null typed value gives null rather than failing. */
    function GetValue(): (v: RawValue)
      ensures typedValue.Ref? ==> v == typedValue.typed.GetValue()
      ensures typedValue.NullRef? ==> v == Null
    {
      if typedValue != NullRef then typedValue.typed.GetValue() else Null
    }

    /** Entries are immutable: `setValue` always fails. */
    function SetValue(value: RawValue): (r: Result<RawValue>)
      ensures r == Err(UnsupportedOperation(ImmutableEntry))
    {
      Err(UnsupportedOperation(ImmutableEntry))
    }
  }

  /** One entry per key of `m`, holding the key and its typed value, built key by key. */
  method EntriesOf(m: LinkedMap<Name, TypedRef>) returns (entrySet: set<ValueEntry>)
    requires m.Valid()
    ensures |entrySet| == |m.order|
    ensures forall e :: e in entrySet <==> e.key in m.entries && e.typedValue == m.entries[e.key]
  {
    entrySet := {};
    var i := 0;
    while i < |m.order|
      invariant 0 <= i <= |m.order|
      invariant |entrySet| == i
      invariant forall e :: e in entrySet <==> e.key in m.order[..i] && e.typedValue == m.entries[e.key]
    {
      var key := m.order[i];
      assert key !in m.order[..i];
      entrySet := entrySet + {ValueEntry(key, m.entries[key])};
      i := i + 1;
    }
    assert m.order[..i] == m.order;
  }

  class DmnDecisionOutputImpl {
    /** The outputs by name, in the order their names were first put. */
    var outputValues: LinkedMap<Name, TypedRef>
    /** The PutValue calls made so far, oldest first. */
    ghost var puts: seq<(Name, TypedRef)>

    ghost predicate Valid()
      reads this
    {
      outputValues.Valid()
    }

    /** The outputs are what the PutValue calls so far have put into an empty map. */
    ghost predicate Built()
      reads this
    {
      outputValues == Empty().PutEach(puts)
    }

    constructor ()
      ensures Valid() && Built()
      ensures puts == [] && KeySet() == []
    {
      outputValues := Empty();
      puts := [];
    }

    /**
     * Stores `value` under `name`, as `LinkedHashMap.put` does: a new name is
     * appended to the order, a present name keeps its position and gets the
     * new value (the last write wins). Nothing else changes.
     */
    method PutValue(name: Name, value: TypedRef)
      requires Valid()
      modifies this
      ensures Valid()
      ensures outputValues == old(outputValues).Put(name, value)
      ensures GetValueTyped(name) == value && ContainsKey(name)
      ensures forall n :: n != name ==> outputValues.Get(n) == old(outputValues).Get(n)
      ensures old(ContainsKey(name)) ==> KeySet() == old(KeySet())
      ensures !old(ContainsKey(name)) ==> KeySet() == old(KeySet()) + [name]
      ensures puts == old(puts) + [(name, value)]
      ensures old(Built()) ==> Built()
    {
      PutEachSnoc(Empty(), puts, name, value);
      outputValues := outputValues.Put(name, value);
      puts := puts + [(name, value)];
    }

    /**
     * The names in insertion order (a snapshot of the key view): no name twice,
     * and exactly the names that have an entry.
     */
    function KeySet(): (ks: seq<Name>)
      reads this
      requires Valid()
      ensures Distinct(ks)
      ensures forall k :: k in ks <==> outputValues.Get(k).Some?
    {
      outputValues.order
    }

    /** When no name was put twice, the names are listed exactly in the order of the calls. */
    lemma KeySetInPutOrder()
      requires Valid() && Built() && Distinct(Keys(puts))
      ensures KeySet() == Keys(puts)
    {
      InsertionOrder(puts);
    }

    function Size(): (n: nat)
      reads this
      requires Valid()
      ensures n == |KeySet()|
    {
      outputValues.Size()
    }

    function IsEmpty(): (b: bool)
      reads this
      requires Valid()
      ensures b <==> Size() == 0
    {
      outputValues.IsEmpty()
    }

    function ContainsKey(key: Name): (b: bool)
      reads this
      requires Valid()
      ensures b <==> key in KeySet()
    {
      outputValues.ContainsKey(key)
    }

    /**
     * The typed value stored under `name`, or null when `name` is absent: the
     * value of the last call that put `name`, or null when no call did.
     */
    function GetValueTyped(name: Name): (r: TypedRef)
      reads this
      ensures outputValues.Get(name) == Some(r) || (outputValues.Get(name) == None && r == NullRef)
      ensures Built() ==> LastWrite(puts, name) == Some(r) || (LastWrite(puts, name) == None && r == NullRef)
    {
      LastWriteWins(Empty(), puts, name);
      match outputValues.Get(name)
      case Some(t) => t
      case None => NullRef
    }

    /**
     * The typed values in the insertion order of their names (a snapshot of
     * the value view); when no name was put twice, exactly the values of the
     * calls, in order.
     */
    function ValuesTyped(): (vs: seq<TypedRef>)
      reads this
      requires Valid()
      ensures |vs| == Size()
      ensures forall i :: 0 <= i < |vs| ==> vs[i] == GetValueTyped(KeySet()[i])
      ensures Built() && Distinct(Keys(puts)) ==> vs == Vals(puts)
    {
      InsertionOrder(puts);
      outputValues.Values()
    }

    /** The raw value stored under `key`: null when `key` is absent or its typed value is null. */
    function Get(key: Name): (r: RawValue)
      reads this
      ensures GetValueTyped(key).Ref? ==> r == GetValueTyped(key).typed.GetValue()
      ensures GetValueTyped(key) == NullRef ==> r == Null
    {
      var typedValue := GetValueTyped(key);
      if typedValue != NullRef then typedValue.typed.GetValue() else Null
    }

    /** The typed value of the earliest-inserted name, or null when there is none. */
    function GetFirstValueTyped(): (r: TypedRef)
      reads this
      requires Valid()
      ensures Size() == 0 ==> r == NullRef
      ensures Size() > 0 ==> r == GetValueTyped(KeySet()[0])
      ensures Built() && puts != [] ==> r == GetValueTyped(puts[0].0)
    {
      FirstPutStaysFirst(puts);
      if !IsEmpty() then ValuesTyped()[0] else NullRef
    }

    /** The only typed value: fails when there is more than one, and otherwise is the first one. */
    function GetSingleValueTyped(): (r: Result<TypedRef>)
      reads this
      requires Valid()
      ensures r.Err? <==> Size() > 1
      ensures r.Err? ==> r.error == MoreThanOneValue
      ensures r.Ok? ==> r.value == GetFirstValueTyped()
    {
      if Size() > 1 then Err(MoreThanOneValue) else Ok(GetFirstValueTyped())
    }

    /**
     * The raw value of the first typed value, or null when there is none; a
     * null first typed value makes `getValue()` fail.
     */
    function GetFirstValue(): (r: Result<RawValue>)
      reads this
      requires Valid()
      ensures Size() == 0 ==> r == Ok(Null)
      ensures Size() > 0 ==> (r.Err? <==> GetFirstValueTyped() == NullRef)
      ensures r.Err? ==> r.error == NullPointer
      ensures Size() > 0 && r.Ok? ==> r.value == Get(KeySet()[0])
    {
      if !IsEmpty() then
        match GetFirstValueTyped()
        case NullRef => Err(NullPointer)
        case Ref(t) => Ok(t.GetValue())
      else
        Ok(Null)
    }

    /**
     * The raw value of the only typed value: null when there is none, fails
     * when there is more than one, and otherwise agrees with GetFirstValue.
     */
    function GetSingleValue(): (r: Result<RawValue>)
      reads this
      requires Valid()
      ensures Size() > 1 ==> r == Err(MoreThanOneValue)
      ensures Size() <= 1 ==> r == GetFirstValue()
    {
      if !IsEmpty() then
        match GetSingleValueTyped()
        case Err(e) => Err(e)
        case Ok(NullRef) => Err(NullPointer)
        case Ok(Ref(t)) => Ok(t.GetValue())
      else
        Ok(Null)
    }

    /**
     * A fresh type-erased copy: exactly the names of this output, each mapped
     * to its raw value. Being a value, changing it cannot change this output.
     */
    method GetValueMap() returns (valueMap: map<Name, RawValue>)
      requires Valid()
      ensures forall k :: k in valueMap <==> ContainsKey(k)
      ensures forall k :: k in valueMap ==> valueMap[k] == Get(k)
    {
      valueMap := map[];
      var keys := KeySet();
      var i := 0;
      while i < |keys|
        invariant 0 <= i <= |keys|
        invariant forall k :: k in valueMap <==> k in keys[..i]
        invariant forall k :: k in valueMap ==> valueMap[k] == Get(k)
      {
        var key := keys[i];
        valueMap := valueMap[key := Get(key)];
        i := i + 1;
      }
      assert keys[..i] == keys;
    }

    /**
     * The raw values in the insertion order of their names. `getValue()` is
     * called on every typed value, so a null one makes the call fail.
     */
    method Values() returns (r: Result<seq<RawValue>>)
      requires Valid()
      ensures r.Err? <==> NullRef in ValuesTyped()
      ensures r.Err? ==> r.error == NullPointer
      ensures r.Ok? ==> |r.value| == Size()
      ensures r.Ok? ==> forall i :: 0 <= i < |r.value| ==> r.value[i] == Get(KeySet()[i])
    {
      var typed := ValuesTyped();
      var values: seq<RawValue> := [];
      var i := 0;
      while i < |typed|
        invariant 0 <= i <= |typed|
        invariant NullRef !in typed[..i]
        invariant |values| == i
        invariant forall j :: 0 <= j < i ==> typed[j].Ref? && values[j] == typed[j].typed.GetValue()
      {
        if typed[i] == NullRef {
          return Err(NullPointer);
        }
        values := values + [typed[i].typed.GetValue()];
        i := i + 1;
      }
      assert typed[..i] == typed;
      return Ok(values);
    }

    /** Whether some name's raw value equals `value`; fails as Values does. */
    method ContainsValue(value: RawValue) returns (r: Result<bool>)
      requires Valid()
      ensures r.Err? <==> NullRef in ValuesTyped()
      ensures r.Err? ==> r.error == NullPointer
      ensures r.Ok? ==> (r.value <==> exists k :: k in KeySet() && Get(k) == value)
    {
      var values := Values();
      match values
      case Err(e) =>
        r := Err(e);
      case Ok(vs) =>
        if value in vs {
          var i :| 0 <= i < |vs| && vs[i] == value;
          assert KeySet()[i] in KeySet();
        } else {
          forall k | k in KeySet() ensures Get(k) != value {
            var i :| 0 <= i < |KeySet()| && KeySet()[i] == k;
            assert vs[i] == Get(k);
          }
        }
        r := Ok(value in vs);
    }

    /**
     * The type-erased entries: one per name, each holding the name and its
     * typed value, so that its GetValue is the name's raw value.
     */
    method EntrySet() returns (entrySet: set<ValueEntry>)
      requires Valid()
      ensures |entrySet| == Size()
      ensures forall e :: e in entrySet <==> ContainsKey(e.key) && e.typedValue == GetValueTyped(e.key)
      ensures forall e :: e in entrySet ==> ContainsKey(e.GetKey()) && e.GetValue() == Get(e.GetKey())
    {
      entrySet := EntriesOf(outputValues);
      forall e ensures e in entrySet <==> ContainsKey(e.key) && e.typedValue == GetValueTyped(e.key) {
        assert outputValues.Get(e.key) == if e.key in outputValues.entries then Some(outputValues.entries[e.key]) else None;
      }
    }

    /** The map view is read-only: `put` fails and changes nothing. */
    method Put(key: Name, value: RawValue) returns (r: Result<RawValue>)
      ensures r == Err(UnsupportedOperation(ImmutableOutput))
      ensures unchanged(this)
    {
      r := Err(UnsupportedOperation(ImmutableOutput));
    }

    /** The map view is read-only: `remove` fails and changes nothing. */
    method Remove(key: Name) returns (r: Result<RawValue>)
      ensures r == Err(UnsupportedOperation(ImmutableOutput))
      ensures unchanged(this)
    {
      r := Err(UnsupportedOperation(ImmutableOutput));
    }

    /** The map view is read-only: `putAll` fails and changes nothing. */
    method PutAll(m: map<Name, RawValue>) returns (r: Result<()>)
      ensures r == Err(UnsupportedOperation(ImmutableOutput))
      ensures unchanged(this)
    {
      r := Err(UnsupportedOperation(ImmutableOutput));
    }

    /** The map view is read-only: `clear` fails and changes nothing. */
    method Clear() returns (r: Result<()>)
      ensures r == Err(UnsupportedOperation(ImmutableOutput))
      ensures unchanged(this)
    {
      r := Err(UnsupportedOperation(ImmutableOutput));
    }
  }

  /** An output holding "risk" = "HIGH" and then "score" = 42. */
  method TwoOutputs() returns (output: DmnDecisionOutputImpl)
    ensures fresh(output) && output.Valid()
    ensures output.KeySet() == [Some("risk"), Some("score")]
    ensures output.GetValueTyped(Some("risk")) == Ref(TypedValue(Text("HIGH"), "string"))
    ensures output.GetValueTyped(Some("score")) == Ref(TypedValue(Number(42), "integer"))
  {
    var risk, score := Ref(TypedValue(Text("HIGH"), "string")), Ref(TypedValue(Number(42), "integer"));
    output := new DmnDecisionOutputImpl();
    output.PutValue(Some("risk"), risk);
    assert output.outputValues == LinkedMap([Some("risk")], map[Some("risk") := risk]);
    output.PutValue(Some("score"), score);
    assert output.outputValues == LinkedMap([Some("risk"), Some("score")], map[Some("risk") := risk, Some("score") := score]);
  }

  /**
   * Two outputs put in order: the first one is the first value, there are two
   * values, and asking for a single value fails.
   */
  method TwoOutputsExample() returns (first: TypedRef, size: nat, single: Result<TypedRef>)
    ensures first == Ref(TypedValue(Text("HIGH"), "string"))
    ensures size == 2
    ensures single == Err(MoreThanOneValue)
  {
    var output := TwoOutputs();
    first := output.GetFirstValueTyped();
    size := output.Size();
    single := output.GetSingleValueTyped();
  }

  /** The type-erased copy of two outputs holds both raw values under their names. */
  method TwoOutputsValueMapExample() returns (valueMap: map<Name, RawValue>)
    ensures valueMap == map[Some("risk") := Text("HIGH"), Some("score") := Number(42)]
  {
    var output := TwoOutputs();
    valueMap := output.GetValueMap();
    assert valueMap.Keys == {Some("risk"), Some("score")} by {
      forall k ensures k in valueMap <==> k == Some("risk") || k == Some("score") {
        assert output.ContainsKey(k) <==> k in output.KeySet();
      }
    }
  }

  /** One output put: both the first and the single raw value are that output's raw value. */
  method OneOutputExample() returns (first: Result<RawValue>, single: Result<RawValue>)
    ensures first == Ok(Boolean(true))
    ensures single == Ok(Boolean(true))
  {
    var output := new DmnDecisionOutputImpl();
    output.PutValue(Some("approved"), Ref(TypedValue(Boolean(true), "boolean")));
    first := output.GetFirstValue();
    single := output.GetSingleValue();
  }
}
