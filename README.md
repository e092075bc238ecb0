# Decision outputs and expressions of the DMN engine

This project models two small classes of the Camunda DMN engine.

- `DmnDecisionOutputImpl` holds the result of one decision evaluation. It maps
  output names to typed values and keeps the names in the order they were first
  inserted, as `java.util.LinkedHashMap` does. The evaluator fills it through
  `putValue`. Callers read it in two ways:
  - typed accessors: `getValueTyped`, `getFirstValueTyped`,
    `getSingleValueTyped`, `valuesTyped`;
  - a type-erased `Map<String, Object>` view: `get`, `getFirstValue`,
    `getSingleValue`, `getValueMap`, `values`, `entrySet`, `containsValue`.
    Its raw values are the typed values' `getValue()`. The view's own
    mutators (`put`, `remove`, `putAll`, `clear`) and an entry's `setValue`
    throw `UnsupportedOperationException`. `keySet()` and `valuesTyped()`,
    however, hand out the backing map's own live collections (see
    "## Left out").
- `DmnExpressionImpl` is a mutable holder of an expression element's key, name,
  expression language, expression text and type definition. The type
  definition starts as a `DefaultTypeDefinition`.

Files:

- `values.dfy`: raw values, typed values, Java null (`RawValue.Null`,
  `TypedRef.NullRef`), and the `Result`/`Error` types for what the operations
  throw.
- `linked_maps.dfy`: the value of an insertion-ordered hash map (key order plus
  mapping), its operations, and lemmas about a sequence of puts: last write
  wins, the first key stays first, and fresh keys are listed in put order.
- `decision_output.dfy`: the class `DmnDecisionOutputImpl` over such a map, the
  entry type of its entry set, and two worked examples.
- `expression.dfy`: the class `DmnExpressionImpl` and its `toString`.

The class `DmnDecisionOutputImpl` keeps a ghost history `puts` of every
`PutValue` call. `Valid()` says the map is well formed. `Built()` says the map
is what those calls put into an empty map. Several accessors relate their
result to that history.

Java exceptions become `Err` results:

- `MoreThanOneValue`: a single-value accessor on more than one output.
- `UnsupportedOperation(message)`: one of the view's own mutators or an
  entry's `setValue`. The message is the code's own.
- `NullPointer`: `getValue()` called on a null typed value.

## Model

| member | source | states |
|---|---|---|
| LinkedMaps.LinkedMap.Size | engine/src/main/java/org/camunda/bpm/dmn/engine/impl/DmnDecisionOutputImpl.java:94-97 | The number of entries equals the number of listed keys. |
| LinkedMaps.LinkedMap.IsEmpty | engine/src/main/java/org/camunda/bpm/dmn/engine/impl/DmnDecisionOutputImpl.java:99-102 | The map is empty exactly when no key is listed. |
| LinkedMaps.LinkedMap.ContainsKey | engine/src/main/java/org/camunda/bpm/dmn/engine/impl/DmnDecisionOutputImpl.java:104-107 | A key has an entry exactly when it is listed in the insertion order. |
| LinkedMaps.LinkedMap.Values | engine/src/main/java/org/camunda/bpm/dmn/engine/impl/DmnDecisionOutputImpl.java:125-128 | One value per listed key; the i-th value is the one stored under the i-th key. |
| LinkedMaps.LinkedMap.Put | engine/src/main/java/org/camunda/bpm/dmn/engine/impl/DmnDecisionOutputImpl.java:34-38 | After a put the key maps to the new value and every other key keeps its value. A present key keeps its position; a new key is appended. The map stays well formed. |
| LinkedMaps.LinkedMap.PutEach | engine/src/main/java/org/camunda/bpm/dmn/engine/impl/DmnDecisionOutputImpl.java:34-38 | A sequence of puts keeps the map well formed. |
| LinkedMaps.Empty | engine/src/main/java/org/camunda/bpm/dmn/engine/impl/DmnDecisionOutputImpl.java:34 | A new map is well formed and has no entries. |
| LinkedMaps.DistinctKeysCount | engine/src/main/java/org/camunda/bpm/dmn/engine/impl/DmnDecisionOutputImpl.java:94-97 | A mapping whose keys are exactly the elements of a repetition-free order has as many entries as the order has keys. |
| LinkedMaps.PutEachSnoc | engine/src/main/java/org/camunda/bpm/dmn/engine/impl/DmnDecisionOutputImpl.java:36-38 | Putting a sequence and then one more pair is the same as putting the longer sequence. |
| LinkedMaps.PutEachKeepsOrder | engine/src/main/java/org/camunda/bpm/dmn/engine/impl/DmnDecisionOutputImpl.java:34-38 | Later puts never move a listed key: the old order is a prefix of the new one. |
| LinkedMaps.PutFreshAppendsValue | engine/src/main/java/org/camunda/bpm/dmn/engine/impl/DmnDecisionOutputImpl.java:36-38 | Putting a new key appends its value after the stored values. |
| LinkedMaps.FreshStep | engine/src/main/java/org/camunda/bpm/dmn/engine/impl/DmnDecisionOutputImpl.java:36-38 | Putting the first of several fresh keys appends it, and the remaining keys stay fresh. |
| LinkedMaps.PutEachFreshOrder | engine/src/main/java/org/camunda/bpm/dmn/engine/impl/DmnDecisionOutputImpl.java:34-38 | Puts of fresh, pairwise different keys append those keys in the order of the puts. |
| LinkedMaps.PutEachFreshValues | engine/src/main/java/org/camunda/bpm/dmn/engine/impl/DmnDecisionOutputImpl.java:125-128 | Puts of fresh, pairwise different keys append their values in the order of the puts. |
| LinkedMaps.InsertionOrder | engine/src/main/java/org/camunda/bpm/dmn/engine/impl/DmnDecisionOutputImpl.java:34-38 | Starting from an empty map, when no key is put twice, the order lists exactly the put keys and the values are exactly the put values, both in call order. |
| LinkedMaps.FirstPutStaysFirst | engine/src/main/java/org/camunda/bpm/dmn/engine/impl/DmnDecisionOutputImpl.java:48-54 | Starting from an empty map, the first key put is the first key listed, whatever is put after it. |
| LinkedMaps.LastWriteWins | engine/src/main/java/org/camunda/bpm/dmn/engine/impl/DmnDecisionOutputImpl.java:36-44 | After a sequence of puts, a key maps to the value of its last put. A key that was not put keeps its earlier value. |
| DecisionOutputs.ValueEntry.GetKey | engine/src/main/java/org/camunda/bpm/dmn/engine/impl/DmnDecisionOutputImpl.java:192-195 | The key is the name the entry was built with: with the typed value it rebuilds the whole entry. `EntrySet` states that it is a contained name. |
| DecisionOutputs.ValueEntry.GetValue | engine/src/main/java/org/camunda/bpm/dmn/engine/impl/DmnDecisionOutputImpl.java:197-204 | An entry's raw value is its typed value's raw value, or null when the typed value is null. |
| DecisionOutputs.ValueEntry.SetValue | engine/src/main/java/org/camunda/bpm/dmn/engine/impl/DmnDecisionOutputImpl.java:206-209 | `setValue` always fails with "decision output entry is immutable". |
| DecisionOutputs.EntriesOf | engine/src/main/java/org/camunda/bpm/dmn/engine/impl/DmnDecisionOutputImpl.java:170-180 | The loop builds one entry per key, each holding the key and its stored typed value, and nothing else. |
| DecisionOutputs.DmnDecisionOutputImpl.constructor | engine/src/main/java/org/camunda/bpm/dmn/engine/impl/DmnDecisionOutputImpl.java:34 | A new output is well formed, has no names and no history. |
| DecisionOutputs.DmnDecisionOutputImpl.PutValue | engine/src/main/java/org/camunda/bpm/dmn/engine/impl/DmnDecisionOutputImpl.java:36-38 | The name then maps to the value and every other name keeps its value. A present name keeps its position; a new one is appended. The call is recorded in the history, and the map stays what the history builds. |
| DecisionOutputs.DmnDecisionOutputImpl.KeySet | engine/src/main/java/org/camunda/bpm/dmn/engine/impl/DmnDecisionOutputImpl.java:109-112 | The names, each once, are exactly the names that have an entry (null included), in insertion order; `PutValue` states how each call keeps or extends this order. |
| DecisionOutputs.DmnDecisionOutputImpl.KeySetInPutOrder | engine/src/main/java/org/camunda/bpm/dmn/engine/impl/DmnDecisionOutputImpl.java:109-112 | When no name was put twice, the names are listed exactly in the order of the `putValue` calls. |
| DecisionOutputs.DmnDecisionOutputImpl.Size | engine/src/main/java/org/camunda/bpm/dmn/engine/impl/DmnDecisionOutputImpl.java:94-97 | The size is the number of names. |
| DecisionOutputs.DmnDecisionOutputImpl.IsEmpty | engine/src/main/java/org/camunda/bpm/dmn/engine/impl/DmnDecisionOutputImpl.java:99-102 | The output is empty exactly when its size is zero. |
| DecisionOutputs.DmnDecisionOutputImpl.ContainsKey | engine/src/main/java/org/camunda/bpm/dmn/engine/impl/DmnDecisionOutputImpl.java:104-107 | A name is contained exactly when it is one of the names. |
| DecisionOutputs.DmnDecisionOutputImpl.GetValueTyped | engine/src/main/java/org/camunda/bpm/dmn/engine/impl/DmnDecisionOutputImpl.java:40-44 | The result is the stored typed value, or null for an absent name. In terms of the history it is the value of the last call that put the name, or null if no call did. |
| DecisionOutputs.DmnDecisionOutputImpl.ValuesTyped | engine/src/main/java/org/camunda/bpm/dmn/engine/impl/DmnDecisionOutputImpl.java:125-128 | One typed value per name, in name order. When no name was put twice, these are exactly the values of the calls, in call order. |
| DecisionOutputs.DmnDecisionOutputImpl.Get | engine/src/main/java/org/camunda/bpm/dmn/engine/impl/DmnDecisionOutputImpl.java:140-148 | The raw value of the stored typed value. It is null when the name is absent or its typed value is null. |
| DecisionOutputs.DmnDecisionOutputImpl.GetFirstValueTyped | engine/src/main/java/org/camunda/bpm/dmn/engine/impl/DmnDecisionOutputImpl.java:46-54 | Null when empty; otherwise the value of the earliest-inserted name, which is the name of the first `putValue` call. |
| DecisionOutputs.DmnDecisionOutputImpl.GetSingleValueTyped | engine/src/main/java/org/camunda/bpm/dmn/engine/impl/DmnDecisionOutputImpl.java:56-63 | Fails with the more-than-one-value error exactly when the size exceeds one; otherwise it is the first typed value. |
| DecisionOutputs.DmnDecisionOutputImpl.GetFirstValue | engine/src/main/java/org/camunda/bpm/dmn/engine/impl/DmnDecisionOutputImpl.java:65-72 | Null when empty. Otherwise it fails exactly when the first typed value is null, and else gives the raw value of the first name. |
| DecisionOutputs.DmnDecisionOutputImpl.GetSingleValue | engine/src/main/java/org/camunda/bpm/dmn/engine/impl/DmnDecisionOutputImpl.java:74-81 | Fails with the more-than-one-value error when the size exceeds one. Otherwise it agrees with `GetFirstValue`. |
| DecisionOutputs.DmnDecisionOutputImpl.GetValueMap | engine/src/main/java/org/camunda/bpm/dmn/engine/impl/DmnDecisionOutputImpl.java:83-92 | The copy has exactly the output's names as keys and maps each name to `Get` of it. The output does not change. |
| DecisionOutputs.DmnDecisionOutputImpl.Values | engine/src/main/java/org/camunda/bpm/dmn/engine/impl/DmnDecisionOutputImpl.java:114-123 | Fails with a null-pointer error exactly when some typed value is null. Otherwise it gives one raw value per name, in insertion order, each equal to `Get` of its name. |
| DecisionOutputs.DmnDecisionOutputImpl.ContainsValue | engine/src/main/java/org/camunda/bpm/dmn/engine/impl/DmnDecisionOutputImpl.java:135-138 | Fails as `Values` does. Otherwise it holds exactly when some name's raw value equals the argument. |
| DecisionOutputs.DmnDecisionOutputImpl.EntrySet | engine/src/main/java/org/camunda/bpm/dmn/engine/impl/DmnDecisionOutputImpl.java:170-180 | One entry per name, holding the name and its typed value and nothing else. Each entry's key is a contained name and its raw value is `Get` of that name. |
| DecisionOutputs.DmnDecisionOutputImpl.Put | engine/src/main/java/org/camunda/bpm/dmn/engine/impl/DmnDecisionOutputImpl.java:150-153 | Always fails with "decision output is immutable" and leaves the output unchanged. |
| DecisionOutputs.DmnDecisionOutputImpl.Remove | engine/src/main/java/org/camunda/bpm/dmn/engine/impl/DmnDecisionOutputImpl.java:155-158 | Always fails with "decision output is immutable" and leaves the output unchanged. |
| DecisionOutputs.DmnDecisionOutputImpl.PutAll | engine/src/main/java/org/camunda/bpm/dmn/engine/impl/DmnDecisionOutputImpl.java:160-163 | Always fails with "decision output is immutable" and leaves the output unchanged. |
| DecisionOutputs.DmnDecisionOutputImpl.Clear | engine/src/main/java/org/camunda/bpm/dmn/engine/impl/DmnDecisionOutputImpl.java:165-168 | Always fails with "decision output is immutable" and leaves the output unchanged. |
| DecisionOutputs.TwoOutputs | engine/src/main/java/org/camunda/bpm/dmn/engine/impl/DmnDecisionOutputImpl.java:36-44 | Two puts of different names list them in put order and store both values. |
| DecisionOutputs.TwoOutputsExample | engine/src/main/java/org/camunda/bpm/dmn/engine/impl/DmnDecisionOutputImpl.java:46-63 | With two outputs, the first value is the first one put, the size is two, and the single-value accessor fails. |
| DecisionOutputs.TwoOutputsValueMapExample | engine/src/main/java/org/camunda/bpm/dmn/engine/impl/DmnDecisionOutputImpl.java:83-92 | The type-erased copy of two outputs maps each name to its raw value. |
| DecisionOutputs.OneOutputExample | engine/src/main/java/org/camunda/bpm/dmn/engine/impl/DmnDecisionOutputImpl.java:65-81 | With one output, the first and the single raw value are both that output's raw value. |
| Expressions.RenderMentionsEveryField | engine/src/main/java/org/camunda/bpm/dmn/engine/impl/DmnExpressionImpl.java:62-71 | The description contains each labelled, quoted field: key, name, expression language, expression and type definition. |
| Expressions.DmnExpressionImpl.constructor | engine/src/main/java/org/camunda/bpm/dmn/engine/impl/DmnExpressionImpl.java:21-26 | A new expression has a null key, name, language and expression, and a `DefaultTypeDefinition`, which is not null. |
| Expressions.DmnExpressionImpl.SetKey | engine/src/main/java/org/camunda/bpm/dmn/engine/impl/DmnExpressionImpl.java:28-36 | `GetKey` then returns the new key. Every other field keeps its value. |
| Expressions.DmnExpressionImpl.SetExpression | engine/src/main/java/org/camunda/bpm/dmn/engine/impl/DmnExpressionImpl.java:38-44 | `GetExpression` then returns the new text. Every other field keeps its value. |
| Expressions.DmnExpressionImpl.SetExpressionLanguage | engine/src/main/java/org/camunda/bpm/dmn/engine/impl/DmnExpressionImpl.java:46-52 | `GetExpressionLanguage` then returns the new language. Every other field keeps its value. |
| Expressions.DmnExpressionImpl.SetTypeDefinition | engine/src/main/java/org/camunda/bpm/dmn/engine/impl/DmnExpressionImpl.java:54-60 | `GetTypeDefinition` then returns exactly the argument, null included. Every other field keeps its value. |
| Expressions.DmnExpressionImpl.ToString | engine/src/main/java/org/camunda/bpm/dmn/engine/impl/DmnExpressionImpl.java:62-71 | The description mentions the key, name, expression language, expression and type definition, each labelled and quoted; a null field appears as "null". |

## Left out

- Duplicate output names: `putValue` overwrites the earlier value and the name keeps its first position (last write wins); the code has no duplicate-name error.
- `setTypeDefinition(null)` leaves the type definition null; only a new expression is sure to have one.
- DecisionOutputs.DmnDecisionOutputImpl.KeySet: returns a snapshot of the names. In the code `keySet()` is the backing map's live key set: it follows later `putValue` calls, and its `remove`, `removeAll`, `retainAll`, `clear` and iterator removal delete entries of the output without any `UnsupportedOperationException`. The snapshot cannot express that removal, so the model does not capture that the output can be emptied this way.
- DecisionOutputs.DmnDecisionOutputImpl.ValuesTyped: returns a snapshot of the typed values. In the code `valuesTyped()` is the backing map's live values collection: its removal operations (`remove`, `removeAll`, `retainAll`, `clear`, iterator removal) delete entries of the output. The model does not capture this removal.
- Output names may be null, as the backing map allows (a name is `Option<string>`, None for null). `containsKey` and `get` accept any `Object` in the code; an argument that is not a String is never a key, so it gives false or null. The model only takes names as arguments. `remove` throws for any argument, as `DecisionOutputs.DmnDecisionOutputImpl.Remove` models.
- DecisionOutputs.DmnDecisionOutputImpl.GetValueMap: the copy is a mathematical map, so the iteration order of the `HashMap` is not modelled. It is a value, so changing it cannot change the output.
- DecisionOutputs.DmnDecisionOutputImpl.EntrySet: entries are values compared by name and typed value. The identity-based `HashSet` of entry objects and its iteration order are not modelled. Both have one entry per name.
- DecisionOutputs.DmnDecisionOutputImpl.toString (the `LinkedHashMap` text format) is not modelled.
- Expressions.DmnExpressionImpl.ToString: a type definition describes itself by its own `toString`, which is not part of this model. It is passed in as the `describe` parameter. The contract states what the description mentions, not its full text.
- `TypedValue` is opaque: a raw value plus a type name. Equality of raw values stands for Java's `equals`.
- The logger and how the more-than-one-value exception is built: the model keeps only the error kind.
- Serialization (`serialVersionUID`), unchecked generic casts, and thread safety are not modelled.
- `DmnElementImpl`, which declares `key` and `name`, is not part of this model. Its fields are modelled as plain fields of the expression, and `name` has no setter here.
- DmnInputEntryHandler is not modelled: it is a one-line factory of input entries. The handler registry and the transformation driver are not modelled.
