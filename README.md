# ptera in Dafny

This project models the core of ptera, a Python library for querying and overriding the
variables of functions while they run. It covers five parts:

- **Selector** and **Evaluator** (`ptera/selector.py`). The pattern trees (`Element`, `Call`)
  and their algebra: captures, validity, focus, `rewrite` and `encode`. Also the keyed-dispatch
  evaluator that turns an operator tree into a pattern, its `make_*` builders,
  `_guarantee_call` and `to_pattern`.
- **Selfless** (`ptera/selfless.py`). `Override`/`override`, the `choose` arbitration rule,
  `selfless_interact`, the generated state objects, `PreState.make`, `Selfless.new`, `clone`,
  `get`, argument wrapping in `__call__`, and `gensym`.
- **Core** (`ptera/core.py`). The `Collection` accumulator, the `ActivePattern` parent chain
  and its capture merge, and the list rule of `Policy.proceed`.
- **Storage** (`ptera/storage.py`). `Store` with its order-independent key, the
  initializer/updater/valuer wrappers of `Storage`, and `Role.make_capture`.
- **Categories** (`ptera/categories.py`). The insert-only category registry and category
  addition.

Two small support modules hold shared definitions:

- **Common**: `Option` and `Result`.
- **Text**: Python's `str()` of an integer, `int()` of a lexer word, and the ordering of `str`.

## How things are modelled

**Values and errors.** Python's `None` name is the `NoName` constructor of `Name`, and `ABSENT`
is `Absent`. Every Python exception or failing `assert` on a path the source handles becomes an
error value of a model type: `EvalError`, `InteractError`, `WrapError`, a `false` flag, or a
`null` result.

**Evaluator.** It works on an abstract operator tree, `Ast`. A node carries the shape key that
the `opparse` parser would produce (for example `"X > X"` or `"X [ X ] _"`), and a leaf
(`Token`) carries a word. The category registry is an explicit map parameter of `Evaluate`.

**`choose`.** It is modelled as the stable sort it performs, written as: the highest priority,
the number of options at that priority, and the first option at that priority.

**Classes.**

- The source's mutable objects are Dafny classes with methods: `Registry`, `State`,
  `PreState`, `Selfless`, `Gensym`, `Collection`, `Policy`, `Store` and `Storage`.
- Each method is specified by a function of the old state. The functions carry the lemmas.
- The frozen dataclasses `Element` and `Call` are datatypes. `ActivePattern` is a plain
  (mutable) dataclass in the source; it is a datatype here too, and what that loses is listed
  under "## Left out".

**Callbacks.** Calls into user code become function parameters: the `filter` step of a
pattern, `fill`, `initfn`, `updatefn`, `valuefn` and attribute lookup.

## Model

| member | source | states |
|---|---|---|
| Categories.InitialRegistry | ptera/categories.py:3-10 | the registry starts with exactly the six built-in names, each bound to its type |
| Categories.Registered | ptera/categories.py:13-17 | a successful registration adds an absent name and never changes an existing entry |
| Categories.RegistrationNeverReplaces | ptera/categories.py:13-17 | after any run of successful registrations every earlier entry is still there, bound to the same object |
| Categories.BuiltinNamesAreTaken | ptera/categories.py:3-23 | a category named like a built-in type fails its registration |
| Categories.Registry.constructor | ptera/categories.py:3-10 | the global registry begins as the initial registry |
| Categories.Registry.Register | ptera/categories.py:13-17 | succeeds iff the name is new or bound to an equal object; the registry becomes the registered map |
| Categories.Registry.NewCategory | ptera/categories.py:20-23 | `Category(name)` registers itself under its own name, failing iff that name is bound to something else |
| Categories.Add | ptera/categories.py:28-55 | a sum is defined iff a set or a category takes part |
| Categories.AddIsUnion | ptera/categories.py:28-55 | a defined sum is the union of the members of both operands, and the order of operands does not matter |
| Text.NatToStringIsIntWord | ptera/selector.py:413-416 | `int(str(n)) == n`: the printed digits are a word `int()` accepts, and reading it back gives `n` |
| Text.StrLtTotal | ptera/storage.py:16-17 | Python's string order is total on distinct strings (with StrLtIrreflexive, StrLtTransitive and StrLtAsymmetric, a strict total order) |
| Selector.Named | ptera/selector.py:11-18 | `Element(name=n)` has every other field at its default |
| Selector.ElementCaptures | ptera/selector.py:20-24 | an element's captures are its capture when it is truthy and nothing otherwise |
| Selector.CapturesOf | ptera/selector.py:124-128 | a name is collected from a list of elements iff it is truthy and some element captures it |
| Selector.ChildCaptures | ptera/selector.py:124-128 | the captures of every child are collected, and all of them are truthy |
| Selector.AllCapturesExactly | ptera/selector.py:124-128 | a name is collected from a call iff it is truthy and captured by one of its elements or, recursively, by a child |
| Selector.ChildCapturesExactly | ptera/selector.py:124-128 | a name is collected from a list of children iff it is truthy and captured somewhere inside one of them |
| Selector.CollectCaptures | ptera/selector.py:124-128 | the loop over captures and children computes exactly `AllCaptures` |
| Selector.FocusCount | ptera/selector.py:120-122 | the number of focused captures and children is zero iff `focus` is false |
| Selector.CountFocused | ptera/selector.py:130-134 | the focused count of a capture list is zero iff no capture is focused |
| Selector.RewriteElement | ptera/selector.py:32-45 | a kept element keeps its name, category, value and key field; its capture is kept or cleared |
| Selector.RewriteElementCases | ptera/selector.py:32-45 | every branch of `Element.rewrite`, with and without a focus target |
| Selector.Rewrite | ptera/selector.py:136-148 | a rewritten call keeps its element and `immediate`, has no more captures or children than before, and is never a call with both lists empty |
| Selector.RewriteIdempotent | ptera/selector.py:136-148 | rewriting a rewritten call again with the same arguments changes nothing |
| Selector.RewriteCapturesIdempotent | ptera/selector.py:137-138 | the filtered capture list is a fixed point of the rewrite |
| Selector.RewriteChildrenIdempotent | ptera/selector.py:140-141 | the filtered child list is a fixed point of the rewrite |
| Selector.RewriteCapturesWithin | ptera/selector.py:136-148 | the captures of a rewritten call lie in `required` plus the captures of focused elements (plus the target, when one is given) |
| Selector.PruneKeepsFocus | ptera/selector.py:136-148 | without a target, a dropped call had no focus and a kept call has as many focused members as before |
| Selector.PrunePreservesValid | ptera/selector.py:130-148 | without a target, rewriting a valid call gives a valid call |
| Selector.RetargetFocus | ptera/selector.py:32-45 | with a target `f`, a dropped call mentions no `f`; a kept call is focused iff it mentions `f`, and only on elements capturing `f` |
| Selector.InertRewritesToNone | ptera/selector.py:143-144 | a call whose elements are all unfocused, unrequired and valueless is rewritten to `None` |
| Selector.Encode | ptera/selector.py:183-193 | the loops of `Call.encode` produce exactly `EncodeCall` |
| Selector.EncodeChildren | ptera/selector.py:188-191 | the children loop produces one piece per child, prefixed `> ` when immediate |
| Selector.EncodeElementMarkers | ptera/selector.py:96-110 | for names free of marker characters, an encoded element starts with `!` iff focused, holds `:` iff categorised, holds `=` iff it has a value, and holds no brace |
| Selector.CategoryPartMarkers | ptera/selector.py:107 | the category part holds `:` iff there is a category |
| Selector.ValuePartMarkers | ptera/selector.py:109 | the value part holds `=` iff the value is not `ABSENT` |
| Selector.EncodeCallBraces | ptera/selector.py:192 | for a head free of marker characters, braces appear iff the call has captures or children |
| Selector.EncodeForgets | ptera/selector.py:96-110 | the key field is not printed, and a capture equal to the name prints like no capture |
| Evaluator.GuaranteeCall | ptera/selector.py:220-226 | an element becomes a call on it with the capture cleared, immediate iff inside braces; a call passes through; anything else fails |
| Evaluator.SyntaxErrorsNameUnknownKeys | ptera/selector.py:241-255 | evaluation reports a syntax error only for a key that has no action |
| Evaluator.UnknownOperatorIsSyntaxError | ptera/selector.py:248-254 | a node whose key has no action is a syntax error naming that key |
| Evaluator.ParensAreTransparent | ptera/selector.py:261-264 | parentheses evaluate to their contents |
| Evaluator.NestElementImmediately | ptera/selector.py:267-279 | `X > Y` with `Y` an element appends `Y` focused as a capture of `X` coerced to a call, whether `X` is an element or a call; the result is valid when that call was valid and unfocused; any other `X` fails the assert |
| Evaluator.NestCallImmediately | ptera/selector.py:267-279 | `X > Y` with `Y` a call appends `Y` with `immediate` set as a child of `X` coerced to a call (element or call); any other `X` fails the assert |
| Evaluator.NestElementDeep | ptera/selector.py:282-292 | `X >> Y` with `Y` an element appends a wildcard call capturing `Y` focused, not immediate, as a child of `X` coerced to a call (element or call); any other `X` fails the assert |
| Evaluator.NestCallDeep | ptera/selector.py:282-292 | `X >> Y` with `Y` a call appends `Y` unchanged as a child of `X` coerced to a call (element or call); any other `X` fails the assert |
| Evaluator.PrefixNesting | ptera/selector.py:295-306 | `> X` and `>> X` set `immediate` to true and false: a call keeps everything else, an element becomes a call on it with no captures or children, and any other `X` fails the assert |
| Evaluator.ClassifyByName | ptera/selector.py:309-315 | `X : c` sets the registry entry of `c` as category; a category already set fails the assert; an unknown or integer name is a key error |
| Evaluator.BareClassIsAnonymous | ptera/selector.py:318-323 | `: c` is an anonymous element with that category (a key error when `c` is not registered), and it is not valid |
| Evaluator.FocusMarksElements | ptera/selector.py:326-330 | `!X` focuses an element and fails the assert on a call |
| Evaluator.StarAsIsDollar | ptera/selector.py:333-338 | `* as x` and `$x` evaluate to the same element, for every word |
| Evaluator.AsSetsCapture | ptera/selector.py:387-395 | `x as y` captures under `y`'s name and sets the name key field iff `x` is anonymous |
| Evaluator.InstanceKeys | ptera/selector.py:341-355 | `f[w]` matches the key as a literal value without capture; `f[$w]` captures it as `w` with the value key field |
| Evaluator.InstanceSpecialKeys | ptera/selector.py:341-355 | `f[3]` matches the key against the integer 3 without capture; `f[*]` matches any key value, without capture, with the value key field |
| Evaluator.EqualsStoresLiteral | ptera/selector.py:398-403 | `x = w` stores `w`'s name as value and clears the capture |
| Evaluator.EvaluateCommaChain | ptera/selector.py:378-384 | a comma chain of symbols evaluates to the list of their elements, in order |
| Evaluator.SymbolsAreElements | ptera/selector.py:371-372 | splitting a symbol list keeps all elements in order and finds no calls |
| Evaluator.CaptureList | ptera/selector.py:365-375 | `f{a, b, ...}` appends the symbols' elements as captures, in order |
| Evaluator.DollarCaptureIsInvalid | ptera/selector.py:333-338 | `f{$v}` evaluates, and the resulting call is not valid |
| Evaluator.SymbolCases | ptera/selector.py:406-419 | `*` is the anonymous element; an integer word names an integer with no capture; any other word is both name and capture |
| Evaluator.SymbolRoundTrip | ptera/selector.py:406-419 | reading back the encoding of a symbol gives the same symbol |
| Evaluator.ToPattern | ptera/selector.py:426-436 | a call passes through; an element becomes a non-immediate wildcard call whose only capture is the element with focus set; anything else fails |
| Evaluator.ToPatternOfElement | ptera/selector.py:426-436 | a lifted element is a valid pattern with exactly one focus |
| Selfless.MakeOverride | ptera/selfless.py:262-266 | an `Override` is returned as it is; anything else is wrapped with the given priority |
| Selfless.MakeOverrideIdempotent | ptera/selfless.py:255-266 | wrapping twice is wrapping once, and the wrapped value is unchanged |
| Selfless.WrapArguments | ptera/selfless.py:328-331 | every argument is wrapped at priority 0.5 |
| Selfless.WrappedArgumentPriority | ptera/selfless.py:328-331 | a plain argument ranks at 0.5 and an `Override` argument keeps its own priority |
| Selfless.RealOpts | ptera/selfless.py:342 | the real options are exactly the non-`ABSENT` ones |
| Selfless.RealOptsCounts | ptera/selfless.py:342 | each real option is kept as many times as it occurs, and `ABSENT` not at all |
| Selfless.MaxPriority | ptera/selfless.py:349-354 | the top priority bounds every priority and is attained |
| Selfless.FirstAt | ptera/selfless.py:351 | the stable sort puts first the earliest option at the top priority |
| Selfless.DecideConflict | ptera/selfless.py:351-353 | the decision is a conflict iff two options share the top priority |
| Selfless.DecideWinner | ptera/selfless.py:354 | otherwise the winner is the unwrapped option with the strictly highest priority |
| Selfless.ChooseNotSet | ptera/selfless.py:342-344 | `choose` has no value iff every option is `ABSENT` |
| Selfless.ChooseSingle | ptera/selfless.py:345-347 | with a single real option, that option wins, unwrapped |
| Selfless.ChooseAmongSeveral | ptera/selfless.py:348-354 | with several real options, a tie at the top conflicts and otherwise the strictly highest wins |
| Selfless.ChooseAsWrittenAgrees | ptera/selfless.py:341-354 | with no `ABSENT` option, or with two options as `selfless_interact` passes, the source's ranking and the corrected one agree |
| Selfless.AbsentTiesWithPlainValue | ptera/selfless.py:349-350 | ranking over all options makes `ABSENT` tie with a plain value (see Findings) |
| Selfless.AbsentOutranksNegativeOverrides | ptera/selfless.py:349-350 | ranking over all options lets `ABSENT` win over negative overrides (see Findings) |
| Selfless.InteractOutcomes | ptera/selfless.py:357-363 | unset on both sides is a `NameError`; one set side wins; two are decided by priority, a tie being a conflict |
| Selfless.InteractExamples | tests/test_selfless.py:111-123 | the override and argument-priority cases of the tests, and the unset case |
| Selfless.State.constructor | ptera/selfless.py:284-293 | a state object has fixed slots and is set from a map of slot values |
| Selfless.State.Get | ptera/selfless.py:325-326 | reading a slot that was never set gives `ABSENT` |
| Selfless.State.Set | ptera/selfless.py:284-293 | setting succeeds iff the name is a slot, and changes only that slot |
| Selfless.State.Copy | ptera/selfless.py:320 | the copy is a new object with the same slots and values |
| Selfless.FilledResolves | ptera/selfless.py:275-281 | every external name is resolved from the globals, then the builtins, else `ABSENT`; other slots are kept |
| Selfless.PreState.Make | ptera/selfless.py:275-281 | `make` fills the external names into the state in place and returns that state |
| Selfless.AssignedLastWins | ptera/selfless.py:307-311 | after the assignments, a name takes its last assigned value, and unassigned names keep theirs |
| Selfless.Selfless.FromPreState | ptera/selfless.py:296-299 | a function object starts with a pending state to be filled on first use |
| Selfless.Selfless.FromState | ptera/selfless.py:296-299 | a function object made from a ready state has nothing pending |
| Selfless.Selfless.Materialize | ptera/selfless.py:301-305 | the `state` property makes a pending state once and keeps the result |
| Selfless.Selfless.Clone | ptera/selfless.py:297-323 | the clone is on the given function, or the same one; without a given state it has a new state with the same values; a given state object is shared; a given `PreState` is held still pending; the original's state is made and otherwise kept |
| Selfless.Selfless.New | ptera/selfless.py:307-311 | the original is materialized first; the copy is a new object with the assigned values (the last one for a repeated name), the result is `null` iff a name is not a slot, and the original's values stay as materialized |
| Selfless.Selfless.Get | ptera/selfless.py:325-326 | `get` reads the materialized state, `ABSENT` when unset |
| Selfless.Selfless.InteractWith | ptera/selfless.py:357-363 | the interaction is decided between the passed value and the state's |
| Selfless.TempNamesDistinct | ptera/selfless.py:14-17 | different counter values give different names |
| Selfless.Gensym.Next | ptera/selfless.py:14-17 | the counter is bumped first and the new name carries the bumped value |
| Core.FromRules | ptera/core.py:71-81 | a root pattern has no parent and no captures, and is fresh and immediate |
| Core.KeyedByLastWins | ptera/core.py:90 | captures are keyed by name, and the last capture with a name is the one kept |
| Core.ProceedPattern | ptera/core.py:83-101 | a matched (`True`) pattern does not proceed; a successful step links to its parent, keeps the original pattern and rules, is not fresh, is immediate as the nesting says, and carries the step's captures keyed by name with the last one winning |
| Core.GatheredKeys | ptera/core.py:103-109 | the merged captures hold a name iff some pattern on the parent chain captured it |
| Core.GatheredFarthestWins | ptera/core.py:103-109 | on a name captured at several levels, the farthest ancestor's entry wins |
| Core.GetCaptures | ptera/core.py:103-109 | the loop over parents computes exactly the merged captures |
| Core.FinishAllKeepsCaptures | ptera/core.py:29-33 | finishing keeps length and order, turns each entry into its merged captures, and a second finish changes nothing |
| Core.Field | ptera/core.py:39-41 | `map(key)` fails with a key error naming `key` iff some entry lacks it, and otherwise lists the values in order |
| Core.ValuesOf | ptera/core.py:43-45 | `map()` replaces every captured object by its value, keeping the keys |
| Core.Collection.constructor | ptera/core.py:21-23 | a new collection is empty and not done |
| Core.Collection.Add | ptera/core.py:25-27 | adding fails iff the collection is done; otherwise the pattern is appended |
| Core.Collection.Finish | ptera/core.py:29-33 | the first call sets `done` and finishes every entry; later calls change nothing |
| Core.Collection.Iter | ptera/core.py:35-37 | iterating finishes first and yields each entry's captures in order |
| Core.Collection.MapKey | ptera/core.py:39-41 | `map(key)` finishes and returns the values under `key`, or a key error |
| Core.Collection.MapValues | ptera/core.py:43-47 | `map()` finishes and returns the value maps |
| Core.Collection.MapFullKey | ptera/core.py:51-53 | `map_full(key)` finishes and returns the captured objects under `key`, or a key error |
| Core.TapPatterns | ptera/core.py:131-134 | each tap becomes a root pattern with the accumulate rule |
| Core.DictPatterns | ptera/core.py:114-118 | each pattern text with its rules becomes a root pattern |
| Core.SuccessorsAreKept | ptera/core.py:142-145 | the successor of every pattern that steps is in the next policy |
| Core.WaitingPatternsAreKept | ptera/core.py:146-147 | a pattern whose step fails is kept in the first part when it is neither immediate nor matched |
| Core.FailedPatternsDrop | ptera/core.py:146-147 | conversely, a pattern whose step fails adds nothing to the first part iff it is immediate or matched, and otherwise adds only itself; a fresh root still comes back through the second part |
| Core.SteppedFromInputs | ptera/core.py:141-147 | nothing else enters the first part of the result |
| Core.SurvivorShape | ptera/core.py:141-147 | a survivor is a non-fresh successor or a live, non-immediate input; a matched pattern contributes nothing |
| Core.FreshOfMembers | ptera/core.py:148 | the second part holds exactly the fresh input patterns |
| Core.TapsAreKept | ptera/core.py:127-148 | every tap comes back as a fresh root pattern of the next policy |
| Core.Policy.constructor | ptera/core.py:113-125 | a policy extends the ambient policy's patterns and accumulators when one is given |
| Core.Policy.FromDict | ptera/core.py:113-125 | a pattern dictionary becomes root patterns |
| Core.WithTaps | ptera/core.py:130-136 | each tap gets a new, empty, unfinished collection; every other accumulator is kept |
| Core.StepAll | ptera/core.py:141-148 | the loop over patterns computes exactly the survivors followed by the fresh patterns |
| Core.Policy.Proceed | ptera/core.py:127-149 | the next policy's patterns are the stepped first part plus the fresh ones; each tap maps to a new empty collection; other accumulators are shared; this policy is unchanged |
| Core.Policy.Values | ptera/core.py:151-152 | the collection of a tap, or a key error |
| Storage.InsertSorted | ptera/storage.py:17 | inserting an item with a new keyword keeps the items sorted |
| Storage.Key | ptera/storage.py:16-17 | the key is sorted by keyword and holds exactly the keyword items |
| Storage.SortedHeadsAgree | ptera/storage.py:16-17 | two sorted sequences of the same items start with the same item |
| Storage.SortedIsUnique | ptera/storage.py:16-17 | two sorted sequences of the same items are equal |
| Storage.KeyIgnoresOrder | ptera/storage.py:16-17 | the key does not depend on the order in which keywords are passed |
| Storage.MemoIsStable | ptera/storage.py:19-23 | a lookup stores what it returns, fills only a missing key, and a second lookup of that key returns the same value without filling |
| Storage.MemoAfterSet | ptera/storage.py:25-27 | after a `set`, a `get` of the same key returns the set value |
| Storage.Store.constructor | ptera/storage.py:12-14 | a new store is empty |
| Storage.Store.Get | ptera/storage.py:19-23 | `get` is the memoised lookup under the sorted key, calling `fill` only for a missing key |
| Storage.Store.Set | ptera/storage.py:25-27 | `set` overwrites the entry of its key and no other |
| Storage.MakeCapture | ptera/storage.py:38-47 | `{}` unless a non-empty target name or a category is set; otherwise a single entry under the target |
| Storage.MergedPrefersPattern | ptera/storage.py:84 | passed captures override the role's own entry, which fills in only an absent target |
| Storage.KeyTuple | ptera/storage.py:85-87 | the key tuple lists one attribute per key capture, in order, or a key error for the first missing capture |
| Storage.Storage.constructor | ptera/storage.py:77-79 | a new storage has an empty store |
| Storage.Storage.ValueWrapped | ptera/storage.py:106-112 | the valuer is applied to the merged captures (see `MergedPrefersPattern`), and the store is neither read nor written |
| Storage.Storage.InitWrapped | ptera/storage.py:81-92 | the initializer runs only for a key tuple not yet stored, and the stored value is returned |
| Storage.Storage.UpdateWrapped | ptera/storage.py:94-104 | an update fails the assert iff the key tuple is not stored, and otherwise replaces only that entry |

## Left out

- The `opparse` lexer and precedence parser are not part of this model. The evaluator works on
  an already parsed operator tree, and no parse/encode round trip is claimed.
- The commented-out `filter`, `specialize` and `key_captures` of `ptera/selector.py` are not
  modelled. `ActivePattern.proceed` takes the step as a `filter` parameter, and whether a
  pattern nests immediately as a `nestedImmediate` parameter.
- The runtime of `ptera/core.py` is left out: `interact`, `_fetch`, `_store`,
  `PteraFunction.__call__`, `Policy.__enter__`/`__exit__`. These rely on a context variable
  and on user callbacks. The ambient policy becomes the constructor's `current` argument.
- `Selector.ChildCaptures`: its own contract says only that every child's captures are
  collected and that all are truthy. That nothing else is collected is stated by
  `Selector.ChildCapturesExactly` and `Selector.AllCapturesExactly`, because the converse in the
  two mutually recursive contracts makes the solver loop.
- `Selfless.RealOpts`: its own contract states membership. How often each option is kept is
  stated by `Selfless.RealOptsCounts`, so that the quantifier over every entry is kept out of the
  function's own contract, where the solver would instantiate it in every proof that uses
  `RealOpts` (solver cost, as for `Selector.ChildCaptures`).
- `Core.Collection.Add`: entries are stored as snapshots of `ActivePattern` values. In the
  source a pattern is a mutable dataclass shared with the policy, and `_store` keeps writing
  into its `captures` dict (and into the captured entries' `.value`) after `lst.add(pattern)`;
  the deferred `finish` would see those writes. The model does not capture that aliasing.
- `Selfless.Selfless.Clone`: the keywords are exactly `fn` and `state`. A call with any other
  keyword, which raises `TypeError` in `Selfless.__init__`, cannot be expressed.
- `Core.Policy.constructor`: `self.patterns += curr.patterns` extends the caller's list in
  place, and `self.accumulators.update(...)` mutates the dictionary the caller passed. The model
  builds a new sequence and a new map instead, so neither aliasing is captured.
- `Core.Policy.Proceed`: without taps the source gives the new policy the same dictionary
  object. The model copies the map value, and the `Collection` objects themselves are shared
  as in the source.
- `Collection.map(fn)` and `map_full(fn)` with a callable call user code with keyword
  arguments, so they are not modelled. Their string-key and no-argument forms are modelled.
  `map_full()` with no argument is `Iter`.
- The Python AST rewriting and `exec` of `ptera/selfless.py` is left out: the transformer,
  `transform`, `state_class` built by `type()`, and the `selfless` decorator. The slots and
  default values it would compute are given to the `State` constructor.
- `Selfless.State.constructor` requires the initial values to be slots. In the source, the
  transformer in `transform` guarantees this.
- `Selfless.__call__` also calls the wrapped function. Only its argument wrapping is modelled.
- `Storage._prepare`, `policy`, `taps` and `process_taps` are left out: they call
  `retarget`/`specialize`, which no longer exist. The key captures are a constructor argument.
- Storage: `call_with_captures`, which inspects a function's signature, is left out, and each
  user function is applied to the whole merged capture map. `getattr(cap[k], field)` is an
  `attr` parameter, and an `AttributeError` from it is not modelled.
- `Storage.Store.Get`: keyword arguments are a sequence with distinct keywords, as a Python
  `**kwargs` dictionary always has. The tuple comparison therefore never reaches the values.
- `Evaluator.MakeNested`: for `X >> Y` where `Y` is neither an element nor a call, the source
  appends the raw value to the children, which makes an ill-formed tree. The model returns
  `TypeError` instead.
- Evaluator: `int()` of a lexer word is modelled for digit groups separated by single
  underscores. The lexer cannot produce a sign or whitespace, and Python's limit on the number
  of digits is not modelled.
- Selfless: priorities are real numbers. Floating-point rounding and NaN are not modelled.
- `Selfless.Selfless.New`: Python sets the slots one by one and can fail halfway through on an
  attribute that is not a slot. The model reports the failure, as `null`, without the partly
  updated clone.
- `ptera/tools.py`, `ptera/utils.py`, `ptera/__init__.py`, `ptera/rewrite.py` and the
  repository's examples are not part of this model.

## Findings

| source | as written | input that shows it | evidently intended | confidence | as-written member | corrected member |
|---|---|---|---|---|---|---|
| ptera/selfless.py:349-350 | with several real options, the priority list is built from `opts`, so an `ABSENT` option takes part with priority 0 | `choose([ABSENT, 5, Override(7, -1)])` raises `ConflictError` (`ABSENT` ties with `5`); `choose([ABSENT, Override(1, -1), Override(2, -2)])` returns `(True, ABSENT)` | rank only `real_opts`, so `ABSENT` never takes part: `5` wins, and `Override(1, -1)` wins | not executed; `selfless_interact` always passes two options, where the two rules agree (`Selfless.ChooseAsWrittenAgrees`) | Selfless.ChooseAsWritten (shown by Selfless.AbsentTiesWithPlainValue and Selfless.AbsentOutranksNegativeOverrides) | Selfless.Choose (Selfless.ChooseNotSet, Selfless.ChooseSingle, Selfless.ChooseAmongSeveral) |
