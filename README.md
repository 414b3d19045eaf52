# use-hook state hooks in Dafny

A model of the five state hooks of the `use-hook` React library: `useArray`,
`useBoolean`, `useNumber`, `useObject` and `useString`. Each hook holds one value and
returns helpers that compute the next value from the previous one and commit it.
`reset` commits the hook's `initialValue` argument.

Each hook becomes one Dafny module in two layers:

- **Transitions.** One pure function per helper computes the next value from the
  previous one: `Pushed`, `Popped`, `Toggled`, `Divided`, `Merged`, `Transformed` and so
  on. Lemmas relate the transitions to one another, as inverses, idempotence and
  round trips.
- **Cell.** A class with a mutable `value` field and an immutable `initial` field. Its
  methods assign `value := F(old value, arguments)`, and `Reset` assigns `initial`, the
  argument the cell was constructed with.
  Default arguments (`[]`, `false`, `0`, `''`, a step of `1`) are Dafny default
  parameter values. One client method per hook (`…CellScenario`) runs a short sequence
  of calls and states the result.

Module map:

- `UseArray` (`use_array.dfy`): arrays are `seq<T>`.
- `UseBoolean` (`use_boolean.dfy`).
- `UseNumber` (`use_number.dfy`): numbers are exact `real`s.
- `UseObject` (`use_object.dfy`): an object is the finite map from its own
  properties to their values.
- `UseString` (`use_string.dfy`): built on the `Words` module (`words.dfy`).

`Words` models the JavaScript string built-ins that `transform` relies on:

- `toLowerCase` and `toUpperCase`, as ASCII case mapping.
- The character classes `[-_\s]`, `[\s_]` and `[\s-]`, with `\s` as the exact
  ECMAScript set of WhiteSpace and LineTerminator code points.
- `split` on a run class: `Split` cuts the pieces and `Gaps` the runs between them.
- `join`.
- A global `replace` of runs by one character: `Collapse`.

`Split` is characterised completely by two lemmas that are converses of each other:

- `SplitWeave` and `SplitShape`: interleaving the pieces with the runs gives back the
  string, and the pieces and runs have the `WellSplit` shape.
- `SplitOfWeave`: any interleaving with that shape splits back into its own pieces and
  runs.

With this, each case convention of `transform` is stated as a property of the words
between separators rather than of the code that computes it.

## Model

| member | source | states |
|---|---|---|
| UseArray.Pushed | src/hooks/use-array.tsx:42-44 | the result is one longer, ends with the item, and keeps every earlier element at its index |
| UseArray.Popped | src/hooks/use-array.tsx:46-48 | on `[]` the result is `[]`; otherwise it is one shorter and the old array is the result followed by its last element |
| UseArray.Shifted | src/hooks/use-array.tsx:50-52 | on `[]` the result is `[]`; otherwise it is one shorter and the old array is its first element followed by the result |
| UseArray.Unshifted | src/hooks/use-array.tsx:54-56 | the result is one longer, starts with the item, and has every old element one place later |
| UseArray.PopAfterPush | src/hooks/use-array.tsx:42-48 | pop undoes push |
| UseArray.ShiftAfterUnshift | src/hooks/use-array.tsx:50-56 | shift undoes unshift |
| UseArray.PushAfterPop | src/hooks/use-array.tsx:42-48 | on a non-empty array, pushing back the popped last element rebuilds it |
| UseArray.UnshiftAfterShift | src/hooks/use-array.tsx:50-56 | on a non-empty array, unshifting back the shifted first element rebuilds it |
| UseArray.ArrayCell.constructor | src/hooks/use-array.tsx:28-40 | value and initial are the initial array, `[]` by default |
| UseArray.ArrayCell.Set | src/hooks/use-array.tsx:40 | the value becomes the given array |
| UseArray.ArrayCell.Push | src/hooks/use-array.tsx:42-44 | the new value is `Pushed` of the old value |
| UseArray.ArrayCell.Pop | src/hooks/use-array.tsx:46-48 | the new value is `Popped` of the old value |
| UseArray.ArrayCell.Shift | src/hooks/use-array.tsx:50-52 | the new value is `Shifted` of the old value |
| UseArray.ArrayCell.Unshift | src/hooks/use-array.tsx:54-56 | the new value is `Unshifted` of the old value |
| UseArray.ArrayCell.Clear | src/hooks/use-array.tsx:58-60 | the value becomes `[]` whatever it was |
| UseArray.ArrayCell.Reset | src/hooks/use-array.tsx:62-64 | the value becomes the initial array, whatever happened since |
| UseArray.ArrayCellScenario | src/hooks/use-array.tsx:28-66 | push then pop leaves the cell as it was, and reset after clear and unshift restores the initial array |
| UseBoolean.Toggled | src/hooks/use-boolean.tsx:37 | the result differs from the previous value |
| UseBoolean.ToggleTwice | src/hooks/use-boolean.tsx:37 | toggling twice gives back the value |
| UseBoolean.BooleanCell.constructor | src/hooks/use-boolean.tsx:23-33 | value and initial are the initial flag, `false` by default |
| UseBoolean.BooleanCell.Set | src/hooks/use-boolean.tsx:33 | the value becomes the given flag |
| UseBoolean.BooleanCell.SetTrue | src/hooks/use-boolean.tsx:35 | the value is true whatever it was |
| UseBoolean.BooleanCell.SetFalse | src/hooks/use-boolean.tsx:36 | the value is false whatever it was |
| UseBoolean.BooleanCell.Toggle | src/hooks/use-boolean.tsx:37 | the new value is the negation of the old one |
| UseBoolean.BooleanCell.Reset | src/hooks/use-boolean.tsx:38 | the value becomes the initial flag |
| UseBoolean.BooleanCellScenario | src/hooks/use-boolean.tsx:23-41 | setTrue then toggle gives false, setFalse then toggle gives true, two toggles cancel, and reset gives the default `false` |
| UseNumber.Incremented | src/hooks/use-number.tsx:44-46 | the result exceeds the previous value by exactly the step |
| UseNumber.Decremented | src/hooks/use-number.tsx:48-50 | the result falls short of the previous value by exactly the step |
| UseNumber.Multiplied | src/hooks/use-number.tsx:52-54 | a non-zero factor can be divided back out, and a zero factor gives 0 |
| UseNumber.Divided | src/hooks/use-number.tsx:56-59 | a zero divisor leaves the value unchanged; any other divisor gives a result that the divisor multiplies back to the previous value |
| UseNumber.AtLeast | src/hooks/use-number.tsx:65-67 | the result is at least both the value and the minimum, and equals one of them (`Math.max`) |
| UseNumber.AtMost | src/hooks/use-number.tsx:69-71 | the result is at most both the value and the maximum, and equals one of them (`Math.min`) |
| UseNumber.DecrementAfterIncrement | src/hooks/use-number.tsx:44-50 | decrementing by a step undoes incrementing by it |
| UseNumber.DivideAfterMultiply | src/hooks/use-number.tsx:52-59 | dividing by a non-zero factor undoes multiplying by it |
| UseNumber.AtLeastIdempotent | src/hooks/use-number.tsx:65-67 | a second setMin with the same bound changes nothing |
| UseNumber.AtMostIdempotent | src/hooks/use-number.tsx:69-71 | a second setMax with the same bound changes nothing |
| UseNumber.ClampIntoRange | src/hooks/use-number.tsx:65-71 | setMin(lo) then setMax(hi) puts the value in `[lo, hi]` whenever `lo <= hi` |
| UseNumber.NumberCell.constructor | src/hooks/use-number.tsx:29-42 | value and initial are the initial number, 0 by default |
| UseNumber.NumberCell.Set | src/hooks/use-number.tsx:42 | the value becomes the given number |
| UseNumber.NumberCell.Increment | src/hooks/use-number.tsx:44-46 | the new value is `Incremented` of the old one, with a default step of 1 |
| UseNumber.NumberCell.Decrement | src/hooks/use-number.tsx:48-50 | the new value is `Decremented` of the old one, with a default step of 1 |
| UseNumber.NumberCell.Multiply | src/hooks/use-number.tsx:52-54 | the new value is `Multiplied` of the old one |
| UseNumber.NumberCell.Divide | src/hooks/use-number.tsx:56-59 | a zero divisor returns before any update and leaves the value; otherwise the new value is `Divided` of the old one |
| UseNumber.NumberCell.Reset | src/hooks/use-number.tsx:61-63 | the value becomes the initial number |
| UseNumber.NumberCell.SetMin | src/hooks/use-number.tsx:65-67 | the new value is `AtLeast` of the old one |
| UseNumber.NumberCell.SetMax | src/hooks/use-number.tsx:69-71 | the new value is `AtMost` of the old one |
| UseNumber.NumberCellScenario | src/hooks/use-number.tsx:29-74 | the default step is 1, decrement undoes increment, dividing by zero changes nothing, and reset gives the default 0 |
| UseObject.WithProperty | src/hooks/use-object.tsx:39-44 | the keys are the old keys plus the key, the key holds the new value, and every other key keeps its value |
| UseObject.WithoutProperty | src/hooks/use-object.tsx:46-52 | the keys are the old keys minus the key, and every remaining key keeps its value |
| UseObject.Merged | src/hooks/use-object.tsx:62-67 | the keys are the union; keys of the partial take its values and the other keys keep theirs |
| UseObject.RemoveAbsent | src/hooks/use-object.tsx:46-52 | removing a missing key leaves an equal object |
| UseObject.SetAfterRemove | src/hooks/use-object.tsx:39-52 | setting a property after removing it binds the key to the new value, the same as setting it directly |
| UseObject.RemoveAfterSet | src/hooks/use-object.tsx:39-52 | removing a property after setting it is the same as removing it directly |
| UseObject.MergeEmpty | src/hooks/use-object.tsx:62-67 | merging `{}` changes nothing |
| UseObject.MergeIdempotent | src/hooks/use-object.tsx:62-67 | merging the same partial twice equals merging it once |
| UseObject.MergeSingleton | src/hooks/use-object.tsx:39-44 | merging a one-key partial is setting that property |
| UseObject.ObjectCell.constructor | src/hooks/use-object.tsx:26-37 | value and initial are the initial object |
| UseObject.ObjectCell.Set | src/hooks/use-object.tsx:37 | the value becomes the given object |
| UseObject.ObjectCell.SetProperty | src/hooks/use-object.tsx:39-44 | the new value is `WithProperty` of the old one |
| UseObject.ObjectCell.RemoveProperty | src/hooks/use-object.tsx:46-52 | the new value is `WithoutProperty` of the old one, and equals it when the key is missing |
| UseObject.ObjectCell.Clear | src/hooks/use-object.tsx:54-56 | the value becomes the empty object |
| UseObject.ObjectCell.Reset | src/hooks/use-object.tsx:58-60 | the value becomes the initial object |
| UseObject.ObjectCell.Merge | src/hooks/use-object.tsx:62-67 | the new value is `Merged` of the old one |
| UseObject.ObjectCellScenario | src/hooks/use-object.tsx:26-70 | set after remove binds the key, merge keeps every other key, clear empties, and reset restores the initial object |
| Words.IsWhiteSpace | src/hooks/use-string.tsx:40 | the code points `\s` matches: ECMAScript WhiteSpace and LineTerminator; `SeparatorClasses` relates it to the three classes |
| Words.IsSeparator | src/hooks/use-string.tsx:40-57 | `[-_\s]`, `[\s_]` and `[\s-]`; `SeparatorClasses` and `CaseKeepsSeparators` state its properties |
| Words.SeparatorClasses | src/hooks/use-string.tsx:40-57 | `[-_\s]` is `[\s_]` plus `-` and `[\s-]` plus `_`; `-` and `_` are not white space; no ASCII letter or digit is a separator |
| Words.Split | src/hooks/use-string.tsx:40 | at least one piece; `SplitWeave` and `SplitShape` state that the pieces with the runs rebuild the string in the split shape, and `SplitOfWeave` that any string of that shape splits into exactly its pieces |
| Words.Join | src/hooks/use-string.tsx:42 | `join(sep)`; `JoinCons`, `JoinNoSeparator`, `LowerJoin`, `SplitConcat` and `CollapseIsJoin` state its properties |
| Words.JoinCons | src/hooks/use-string.tsx:42 | joining with `''` puts the first piece before the join of the rest |
| Words.LowerChar | src/hooks/use-string.tsx:29 | the result is not upper-case; an upper-case letter becomes the matching lower-case letter and every other character is kept |
| Words.UpperChar | src/hooks/use-string.tsx:32 | the result is not lower-case; a lower-case letter becomes the matching upper-case letter and every other character is kept |
| Words.CaseKeepsSeparators | src/hooks/use-string.tsx:40 | case mapping never changes whether a character is a separator |
| Words.Lower | src/hooks/use-string.tsx:29 | same length; no upper-case letter is left; only upper-case letters change, and each keeps its upper-case form |
| Words.Upper | src/hooks/use-string.tsx:32 | same length; no lower-case letter is left; only lower-case letters change, and each keeps its lower-case form |
| Words.LowerIdempotent | src/hooks/use-string.tsx:29 | lower-casing twice equals lower-casing once |
| Words.UpperIdempotent | src/hooks/use-string.tsx:32 | upper-casing twice equals upper-casing once |
| Words.LowerAppend | src/hooks/use-string.tsx:29 | lower-casing distributes over concatenation |
| Words.LowerAll | src/hooks/use-string.tsx:49 | each piece is lower-cased in place |
| Words.WordLengthMaximal | src/hooks/use-string.tsx:40 | the first piece is the longest separator-free prefix: it has no separator, and the next character, if any, is one |
| Words.RunLengthMaximal | src/hooks/use-string.tsx:40 | a run is the longest all-separator prefix, and the next character, if any, is not one (the greedy `+`) |
| Words.Strip | src/hooks/use-string.tsx:40-42 | the result has no separator and is no longer than the string |
| Words.SplitCount | src/hooks/use-string.tsx:40 | there is one more piece than there are runs |
| Words.SplitWeave | src/hooks/use-string.tsx:40 | interleaving the pieces with the runs between them gives back the string |
| Words.SplitShape | src/hooks/use-string.tsx:40 | pieces have no separator, inner pieces are non-empty, runs are non-empty and all separators, and a string starting with a non-separator has a non-empty first piece |
| Words.SplitOfWeave | src/hooks/use-string.tsx:40 | any interleaving of that shape splits back into exactly its own pieces and runs |
| Words.SplitConcat | src/hooks/use-string.tsx:40-42 | joining the pieces with `''` gives the string with every separator removed |
| Words.StripWeave | src/hooks/use-string.tsx:40-42 | removing the separators from an interleaving leaves its pieces joined with `''` |
| Words.JoinNoSeparator | src/hooks/use-string.tsx:42 | joining separator-free pieces with separator-free glue adds no separator |
| Words.LowerJoin | src/hooks/use-string.tsx:54 | lower-casing a join lower-cases each piece when the glue has no upper-case letter |
| Words.LowerWeave | src/hooks/use-string.tsx:54 | lower-casing an interleaving lower-cases each piece and each run |
| Words.WellSplitLower | src/hooks/use-string.tsx:54 | lower-casing keeps the shape of a split |
| Words.SplitLower | src/hooks/use-string.tsx:54 | splitting the lower-cased string gives the lower-cased pieces |
| Words.Collapse | src/hooks/use-string.tsx:54 | the result is no longer than the string |
| Words.CollapseWeave | src/hooks/use-string.tsx:54 | replacing each run of an interleaving by one character joins its pieces with that character |
| Words.CollapseIsJoin | src/hooks/use-string.tsx:54-57 | a global replace of maximal runs by one character equals joining the split pieces with that character |
| UseString.Capitalize | src/hooks/use-string.tsx:34-36 | same length; `''` stays `''`; the first character is no longer lower-case and keeps its lower-case form; the rest is unchanged |
| UseString.Capitalized | src/hooks/use-string.tsx:41 | each piece is capitalized in place |
| UseString.CamelWords | src/hooks/use-string.tsx:49 | the first piece is lower-cased and the others are capitalized |
| UseString.PascalCase | src/hooks/use-string.tsx:37-44 | `PascalOfWords`: the capitalized words concatenated; `PascalShape`: no separator, and the stripped string up to case |
| UseString.CamelCase | src/hooks/use-string.tsx:45-52 | `CamelOfWords`: the first word lower-cased, then the others capitalized; `CamelShape`: no separator, and the stripped string up to case |
| UseString.KebabCase | src/hooks/use-string.tsx:53-55 | `KebabOfWords` and `KebabShape`: the lower-cased pieces between runs of whitespace and `_`, joined by single `-` |
| UseString.SnakeCase | src/hooks/use-string.tsx:56-58 | `SnakeShape`: the lower-cased pieces between runs of whitespace and `-`, joined by single `_` |
| UseString.Transformed | src/hooks/use-string.tsx:26-62 | a kind outside the seven leaves the string unchanged |
| UseString.LowerCaseShape | src/hooks/use-string.tsx:28-30 | lowercase keeps the length, leaves no upper-case letter, and is idempotent |
| UseString.UpperCaseShape | src/hooks/use-string.tsx:31-33 | uppercase keeps the length, leaves no lower-case letter, and is idempotent |
| UseString.LowerFixedNoUpper | src/hooks/use-string.tsx:29 | a string equal to its lower-casing has no upper-case letter |
| UseString.CapitalizeKeepsSeparators | src/hooks/use-string.tsx:41 | capitalizing a separator-free piece keeps it separator-free |
| UseString.LowerCapitalize | src/hooks/use-string.tsx:35 | capitalizing changes the string only up to case |
| UseString.LowerAllCapitalized | src/hooks/use-string.tsx:41 | the capitalized pieces lower-case to the lower-cased pieces |
| UseString.CapitalizedNoSeparator | src/hooks/use-string.tsx:41 | capitalizing separator-free pieces keeps them separator-free |
| UseString.PascalOfWords | src/hooks/use-string.tsx:37-44 | Pascal case of words separated by runs of `-`, `_` or whitespace is the capitalized words concatenated |
| UseString.PascalShape | src/hooks/use-string.tsx:37-44 | Pascal case holds no `-`, `_` or whitespace, and equals the string with its separators removed up to case |
| UseString.CamelWordsNoSeparator | src/hooks/use-string.tsx:49 | lower-casing the first piece and capitalizing the others keeps separator-free pieces separator-free |
| UseString.LowerAllCamelWords | src/hooks/use-string.tsx:49 | the camel-case pieces lower-case to the lower-cased pieces |
| UseString.CamelOfWords | src/hooks/use-string.tsx:45-52 | camel case of such words is the first word lower-cased, followed by the other words capitalized |
| UseString.CamelShape | src/hooks/use-string.tsx:45-52 | camel case holds no `-`, `_` or whitespace, is the first piece lower-cased followed by the other pieces capitalized, and equals the string with its separators removed up to case |
| UseString.CamelAfterLeadingSeparator | src/hooks/use-string.tsx:45-52 | a string starting with a separator has an empty first piece, and its camel case equals its Pascal case |
| UseString.CollapseLowerIsJoin | src/hooks/use-string.tsx:54-57 | lower-casing then replacing runs joins the lower-cased pieces with the replacement |
| UseString.CollapseLowerShape | src/hooks/use-string.tsx:54-57 | with a lower-case-stable non-separator replacement, the result has no upper-case letter and no separator of the class |
| UseString.KebabShape | src/hooks/use-string.tsx:53-55 | kebab case has no upper-case letter, no whitespace and no `_`, and is the lower-cased pieces between runs of whitespace and `_` joined by single `-` |
| UseString.SnakeShape | src/hooks/use-string.tsx:56-58 | snake case has no upper-case letter, no whitespace and no `-`, and is the lower-cased pieces between runs of whitespace and `-` joined by single `_` |
| UseString.KebabOfWords | src/hooks/use-string.tsx:53-55 | kebab case of words separated by runs of whitespace or `_` is the lower-cased words joined by `-` |
| UseString.KebabExample | src/hooks/use-string.tsx:53-55 | `Hello World_Test` becomes `hello-world-test` |
| UseString.CamelExample | src/hooks/use-string.tsx:45-52 | `Hello World_Test` becomes `helloWorldTest` |
| UseString.PascalExample | src/hooks/use-string.tsx:37-44 | `hello world` becomes `HelloWorld` |
| UseString.TransformedLower | src/hooks/use-string.tsx:28-30 | the `lowercase` branch applies lower-casing |
| UseString.TransformedUpper | src/hooks/use-string.tsx:31-33 | the `uppercase` branch applies upper-casing |
| UseString.TransformedCapitalize | src/hooks/use-string.tsx:34-36 | the `capitalize` branch capitalizes the whole string |
| UseString.TransformedPascal | src/hooks/use-string.tsx:37-44 | the `pascal-case` branch applies Pascal case |
| UseString.TransformedSnake | src/hooks/use-string.tsx:56-58 | the `snake-case` branch applies snake case |
| UseString.TransformedKebab | src/hooks/use-string.tsx:53-55 | the `kebab-case` branch applies kebab case |
| UseString.TransformedCamel | src/hooks/use-string.tsx:45-52 | the `camel-case` branch applies camel case |
| UseString.StringCell.constructor | src/hooks/use-string.tsx:21-24 | value and initial are the initial string, `''` by default |
| UseString.StringCell.Set | src/hooks/use-string.tsx:24 | the value becomes the given string |
| UseString.StringCell.Transform | src/hooks/use-string.tsx:26-62 | the new value is `Transformed` of the old one by the kind, and an unknown kind leaves it unchanged |
| UseString.StringCell.Reset | src/hooks/use-string.tsx:64-66 | the value becomes the initial string |
| UseString.StringCellScenario | src/hooks/use-string.tsx:21-69 | an unknown kind changes nothing, kebab case joins the lower-cased pieces with `-`, camel case starts with the lower-cased first piece, and reset gives the default `''` |

## Left out

- React machinery is not modelled: rendering, `useState` batching and scheduling, and the identity of `useCallback` helpers across renders. Every helper commits its update at once and in call order.
- UseArray.ArrayCell.Reset, UseBoolean.BooleanCell.Reset, UseNumber.NumberCell.Reset, UseObject.ObjectCell.Reset, UseString.StringCell.Reset: each cell fixes `initial` at construction. The hook's `reset` is re-created whenever `initialValue` changes (the dependency list of its `useCallback`), so it commits the `initialValue` of the latest render. It restores the value the hook was created with only while callers keep passing the same argument. Re-rendering with a new argument is not modelled.
- The returned tuple is not modelled; the cell's fields and methods stand for its entries.
- `setValue` is modelled only with a plain value. Its functional-updater overload is the transition functions themselves.
- `useNumber` works over exact reals. IEEE-754 doubles are not modelled: rounding, overflow to `Infinity`, `NaN`, and `-0` against `0`. With doubles, `DecrementAfterIncrement` and `DivideAfterMultiply` can fail by rounding, and `divisor === 0` is also true for `-0`.
- `useObject` models an object by its own enumerable properties as a finite map. Property order, prototypes, symbol keys, getters and the `keyof T` typing are not modelled. Values of different property types share one value type `V`.
- `toLowerCase` and `toUpperCase` map only ASCII letters. Full Unicode case mapping is not modelled, including locale-independent special cases such as `ß` → `SS` that change the length.
- Strings are sequences of Unicode scalar values, whereas JavaScript strings are UTF-16 code units. `charAt(0)` on a string starting with a surrogate pair takes half a character in JavaScript and a whole one here.
- `transform`'s `type` is any string rather than the `StringTransformType` union (src/hooks/use-string.tsx:19). The model's `TransformKinds` lists the union's seven members, and the `default` branch is reachable, as it is from untyped callers.
