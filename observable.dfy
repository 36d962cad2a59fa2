// ObservableDictionary (Desktop/Tempest.Social/ObservableDictionary.cs): a
// dictionary that raises CollectionChanged on itself and on its read-only
// Keys and Values views. The notifications each of the three raises are
// recorded, in order, in `changes`, `keyChanges` and `valueChanges`.

module Observable {
  import opened Common

  /** The part of a NotifyCollectionChangedEventArgs the model keeps: the action and the
      item it carries (none for Reset). Indices are not modelled. */
  datatype Change<T> = Change(action: ChangeAction, item: Option<T>)

  /** `new NotifyCollectionChangedEventArgs (action, changedItem, index)`: that
      constructor takes Add and Remove only (Reset only with a null item, which the
      dictionary never passes) and throws ArgumentException for any other action. */
  function ItemArgs<T>(action: ChangeAction, item: T): (r: Result<Change<T>>)
    ensures r.Ok? <==> action == Add || action == Remove
    ensures r.Ok? ==> r.value.action == action && r.value.item == Some(item)
    ensures r.Err? ==> r.error == ArgumentInvalid("action")
  {
    if action == Add || action == Remove then Ok(Change(action, Some(item)))
    else Err(ArgumentInvalid("action"))
  }

  /** Replacing goes through the constructor built for it. */
  lemma ReplaceNeedsItsOwnArgs<T>(item: T)
    ensures ItemArgs(Replace, item).Err?
  {
  }

  class ObservableDictionary<K(==), V(==)> {
    var dict: map<K, V>
    var changes: seq<Change<(K, V)>>
    var keyChanges: seq<Change<K>>
    var valueChanges: seq<Change<V>>

    /** Both constructors; a capacity only sizes the storage. */
    constructor ()
      ensures dict == map[] && changes == [] && keyChanges == [] && valueChanges == []
    {
      dict := map[];
      changes, keyChanges, valueChanges := [], [], [];
    }

    function Count(): (n: nat)
      reads this
      ensures n == |dict.Keys|
    {
      |dict|
    }

    /** The indexer's getter. */
    method Get(key: K) returns (r: Result<V>)
      ensures r.Ok? <==> key in dict
      ensures r.Ok? ==> r.value == dict[key]
      ensures r.Err? ==> r.error == KeyNotFound
    {
      if key !in dict {
        return Err(KeyNotFound);
      }
      r := Ok(dict[key]);
    }

    /** Signal (action): a Reset on the dictionary and on both views. */
    method SignalReset()
      modifies this
      ensures dict == old(dict)
      ensures changes == old(changes) + [Change(Reset, None)]
      ensures keyChanges == old(keyChanges) + [Change(Reset, None)]
      ensures valueChanges == old(valueChanges) + [Change(Reset, None)]
    {
      changes := changes + [Change(Reset, None)];
      keyChanges := keyChanges + [Change(Reset, None)];
      valueChanges := valueChanges + [Change(Reset, None)];
    }

    /** Signal (action, key, value, valueOnly): the pair to the dictionary's listeners, the
        key to the Keys view unless `valueOnly`, the value to the Values view. Building the
        first event args throws for any action other than Add and Remove. */
    method Signal(action: ChangeAction, key: K, value: V, valueOnly: bool) returns (r: Outcome)
      modifies this
      ensures dict == old(dict)
      ensures r == Pass <==> action == ChangeAction.Add || action == ChangeAction.Remove
      ensures r.Fail? ==>
        && r.error == ArgumentInvalid("action")
        && changes == old(changes) && keyChanges == old(keyChanges) && valueChanges == old(valueChanges)
      ensures r == Pass ==> changes == old(changes) + [Change(action, Some((key, value)))]
      ensures r == Pass ==> keyChanges == old(keyChanges) + (if valueOnly then [] else [Change(action, Some(key))])
      ensures r == Pass ==> valueChanges == old(valueChanges) + [Change(action, Some(value))]
    {
      var pairArgs := ItemArgs(action, (key, value));
      if pairArgs.Err? {
        return Fail(pairArgs.error);
      }
      changes := changes + [pairArgs.value];
      if !valueOnly {
        keyChanges := keyChanges + [ItemArgs(action, key).value];
      }
      valueChanges := valueChanges + [ItemArgs(action, value).value];
      r := Pass;
    }

    /** The indexer's setter as written: a new key signals Add; an existing key is
        overwritten and then the Replace signal throws, so no listener hears of it. */
    method SetAsWritten(key: K, value: V) returns (r: Outcome)
      modifies this
      ensures dict == old(dict)[key := value]
      ensures key in old(dict) ==>
        && r == Fail(ArgumentInvalid("action"))
        && changes == old(changes) && keyChanges == old(keyChanges) && valueChanges == old(valueChanges)
      ensures key !in old(dict) ==>
        && r == Pass
        && changes == old(changes) + [Change(ChangeAction.Add, Some((key, value)))]
        && keyChanges == old(keyChanges) + [Change(ChangeAction.Add, Some(key))]
        && valueChanges == old(valueChanges) + [Change(ChangeAction.Add, Some(value))]
    {
      var changed := key in dict;
      dict := dict[key := value];
      var action := if changed then Replace else ChangeAction.Add;
      r := Signal(action, key, value, changed);
    }

    /** The indexer's setter as evidently intended: an existing key raises Replace on the
        dictionary and the Values view (the key set did not change), a new key raises Add
        on all three. */
    method Set(key: K, value: V)
      modifies this
      ensures dict == old(dict)[key := value]
      ensures key in old(dict) ==>
        && changes == old(changes) + [Change(Replace, Some((key, value)))]
        && keyChanges == old(keyChanges)
        && valueChanges == old(valueChanges) + [Change(Replace, Some(value))]
      ensures key !in old(dict) ==>
        && changes == old(changes) + [Change(ChangeAction.Add, Some((key, value)))]
        && keyChanges == old(keyChanges) + [Change(ChangeAction.Add, Some(key))]
        && valueChanges == old(valueChanges) + [Change(ChangeAction.Add, Some(value))]
    {
      var changed := key in dict;
      dict := dict[key := value];
      if changed {
        changes := changes + [Change(Replace, Some((key, value)))];
        valueChanges := valueChanges + [Change(Replace, Some(value))];
      } else {
        var _ := Signal(ChangeAction.Add, key, value, false);
      }
    }

    /** Add (key, value), and ICollection.Add (pair), which forwards to it. */
    method Add(key: K, value: V) returns (r: Outcome)
      modifies this
      ensures r == Pass <==> key !in old(dict)
      ensures r.Fail? ==>
        && r.error == DuplicateKey && dict == old(dict)
        && changes == old(changes) && keyChanges == old(keyChanges) && valueChanges == old(valueChanges)
      ensures r == Pass ==>
        && dict == old(dict)[key := value]
        && changes == old(changes) + [Change(ChangeAction.Add, Some((key, value)))]
        && keyChanges == old(keyChanges) + [Change(ChangeAction.Add, Some(key))]
        && valueChanges == old(valueChanges) + [Change(ChangeAction.Add, Some(value))]
    {
      if key in dict {
        return Fail(DuplicateKey);
      }
      dict := dict[key := value];
      r := Signal(ChangeAction.Add, key, value, false);
    }

    method Clear()
      modifies this
      ensures dict == map[]
      ensures changes == old(changes) + [Change(Reset, None)]
      ensures keyChanges == old(keyChanges) + [Change(Reset, None)]
      ensures valueChanges == old(valueChanges) + [Change(Reset, None)]
    {
      dict := map[];
      SignalReset();
    }

    method ContainsKey(key: K) returns (b: bool)
      ensures b <==> key in dict
    {
      b := key in dict;
    }

    /** ICollection.Contains (pair). */
    method ContainsPair(key: K, value: V) returns (b: bool)
      ensures b <==> key in dict && dict[key] == value
    {
      b := key in dict && dict[key] == value;
    }

    method TryGetValue(key: K) returns (found: bool, value: Option<V>)
      ensures found <==> key in dict
      ensures found ==> value == Some(dict[key])
      ensures !found ==> value == None
    {
      if key in dict {
        return true, Some(dict[key]);
      }
      return false, None;
    }

    /** Remove (key): the pair that was there is signalled as removed. */
    method Remove(key: K) returns (present: bool)
      modifies this
      ensures present <==> key in old(dict)
      ensures dict == old(dict) - {key}
      ensures !present ==> changes == old(changes) && keyChanges == old(keyChanges) && valueChanges == old(valueChanges)
      ensures present ==>
        && changes == old(changes) + [Change(ChangeAction.Remove, Some((key, old(dict)[key])))]
        && keyChanges == old(keyChanges) + [Change(ChangeAction.Remove, Some(key))]
        && valueChanges == old(valueChanges) + [Change(ChangeAction.Remove, Some(old(dict)[key]))]
    {
      present := key in dict;
      if present {
        var value := dict[key];
        dict := dict - {key};
        var _ := Signal(ChangeAction.Remove, key, value, false);
      }
    }

    /** ICollection.Remove (pair): removes the key only while it maps to that value. */
    method RemovePair(key: K, value: V) returns (removed: bool)
      modifies this
      ensures removed <==> key in old(dict) && old(dict)[key] == value
      ensures removed ==>
        && dict == old(dict) - {key}
        && changes == old(changes) + [Change(ChangeAction.Remove, Some((key, value)))]
        && keyChanges == old(keyChanges) + [Change(ChangeAction.Remove, Some(key))]
        && valueChanges == old(valueChanges) + [Change(ChangeAction.Remove, Some(value))]
      ensures !removed ==>
        && dict == old(dict)
        && changes == old(changes) && keyChanges == old(keyChanges) && valueChanges == old(valueChanges)
    {
      removed := key in dict && dict[key] == value;
      if removed {
        dict := dict - {key};
        var _ := Signal(ChangeAction.Remove, key, value, false);
      }
    }

    /** Keys.Contains, answered by the Keys view over the current contents. */
    method KeysContains(key: K) returns (b: bool)
      ensures b <==> key in dict.Keys
    {
      var r := KeysViewCall(dict, ViewContains(key));
      b := r.value.found;
    }

    /** Values.Contains, answered by the Values view over the current contents. */
    method ValuesContains(value: V) returns (b: bool)
      ensures b <==> value in dict.Values
    {
      var r := ValuesViewCall(dict, ViewContains(value));
      b := r.value.found;
    }
  }

  /** What a caller may try on the Keys or Values view. */
  datatype ViewCall<T> = ViewAdd(item: T) | ViewClear | ViewRemove(item: T) | ViewContains(item: T) | ViewCount

  /** What a query on a view answers. */
  datatype ViewReply = Present(found: bool) | Counted(n: nat)

  /** A call on a read-only view over `backing` (the dictionary's keys or values) whose
      dictionary holds `count` entries: Add, Clear and Remove throw NotSupportedException
      and leave everything as it was; Contains and Count read through. */
  function ReadOnlyViewCall<T(==)>(backing: set<T>, count: nat, call: ViewCall<T>): (r: Result<ViewReply>)
    ensures r.Err? <==> call.ViewAdd? || call.ViewClear? || call.ViewRemove?
    ensures r.Err? ==> r.error == NotSupported
    ensures call.ViewContains? ==> r == Ok(Present(call.item in backing))
    ensures call.ViewCount? ==> r == Ok(Counted(count))
  {
    match call
    case ViewContains(x) => Ok(Present(x in backing))
    case ViewCount => Ok(Counted(count))
    case _ => Err(NotSupported)
  }

  /** The Keys view of the dictionary. */
  function KeysViewCall<K(==), V>(dict: map<K, V>, call: ViewCall<K>): (r: Result<ViewReply>)
    ensures call.ViewContains? ==> r == Ok(Present(call.item in dict))
    ensures !call.ViewContains? && !call.ViewCount? ==> r == Err(NotSupported)
  {
    ReadOnlyViewCall(dict.Keys, |dict|, call)
  }

  /** The Values view of the dictionary. */
  function ValuesViewCall<K(==), V(==)>(dict: map<K, V>, call: ViewCall<V>): (r: Result<ViewReply>)
    ensures call.ViewContains? ==> r == Ok(Present(exists k :: k in dict && dict[k] == call.item))
    ensures !call.ViewContains? && !call.ViewCount? ==> r == Err(NotSupported)
  {
    ReadOnlyViewCall(dict.Values, |dict|, call)
  }
}
