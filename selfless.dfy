/** The state and override machinery of ptera/selfless.py: `Override`, `override`, `choose`,
    `selfless_interact`, the state objects, `PreState`, `Selfless` and `gensym`. The AST
    transformation that makes a function call `selfless_interact` is not part of this module. */
module Selfless {
  import opened Common
  import opened Text

  /** A Python value, or the `ABSENT` sentinel. */
  datatype Val<V> = Absent | Obj(v: V)

  /** What can sit in a state slot or be passed as an argument: a plain value (`ABSENT` is
      `Raw(Absent)`) or an `Override` carrying a value and a priority. An `Override` never wraps
      another one, as its constructor asserts. */
  datatype Entry<V> = Raw(raw: Val<V>) | Over(value: Val<V>, priority: real)

  function AbsentEntry<V>(): Entry<V> {
    Raw(Absent)
  }

  /** `override(value, priority)`: an `Override` is returned unchanged, anything else is
      wrapped with the given priority. */
  function MakeOverride<V>(e: Entry<V>, priority: real): (r: Entry<V>)
    ensures r.Over?
    ensures e.Over? ==> r == e
    ensures e.Raw? ==> r.value == e.raw && r.priority == priority
  {
    match e
    case Raw(x) => Over(x, priority)
    case Over(_, _) => e
  }

  /** Wrapping is idempotent, whatever the second priority: the first wrap decides. */
  lemma MakeOverrideIdempotent<V>(e: Entry<V>, p: real, q: real)
    ensures MakeOverride(MakeOverride(e, p), q) == MakeOverride(e, p)
    ensures Unwrap(MakeOverride(e, p)) == Unwrap(e)
  {
  }

  /** `Selfless.__call__` wraps every positional and keyword argument with priority 0.5. */
  function WrapArguments<V>(args: seq<Entry<V>>): (r: seq<Entry<V>>)
    ensures |r| == |args|
    ensures forall i :: 0 <= i < |r| ==> r[i] == MakeOverride(args[i], 0.5)
  {
    seq(|args|, i requires 0 <= i < |args| => MakeOverride(args[i], 0.5))
  }

  /** After wrapping, plain arguments rank at 0.5, above plain state values (0) and below a
      default `Override` (1); an argument that already was an `Override` keeps its priority. */
  lemma WrappedArgumentPriority<V>(args: seq<Entry<V>>, i: int)
    requires 0 <= i < |args|
    ensures Unwrap(WrapArguments(args)[i]) == Unwrap(args[i])
    ensures args[i].Raw? ==> Priority(WrapArguments(args)[i]) == 0.5
    ensures args[i].Over? ==> Priority(WrapArguments(args)[i]) == Priority(args[i])
  {
  }

  // ---------------------------------------------------------------------------
  // choose

  function Unwrap<V>(e: Entry<V>): Val<V> {
    match e
    case Raw(x) => x
    case Over(x, _) => x
  }

  /** The priority `choose` ranks by: an `Override`'s own, 0 for anything else. */
  function Priority<V>(e: Entry<V>): real {
    if e.Over? then e.priority else 0.0
  }

  predicate IsReal<V(==)>(e: Entry<V>) {
    e != AbsentEntry()
  }

  /** `[opt for opt in opts if opt is not ABSENT]`. */
  function RealOpts<V(==)>(opts: seq<Entry<V>>): (r: seq<Entry<V>>)
    ensures |r| <= |opts|
    ensures forall i :: 0 <= i < |r| ==> IsReal(r[i])
    ensures forall i :: 0 <= i < |r| ==> r[i] in opts
    ensures forall i :: 0 <= i < |opts| && IsReal(opts[i]) ==> opts[i] in r
  {
    if |opts| == 0 then []
    else
      assert opts == opts[..|opts| - 1] + [opts[|opts| - 1]];
      RealOpts(opts[..|opts| - 1]) + (if IsReal(opts[|opts| - 1]) then [opts[|opts| - 1]] else [])
  }

  /** The filter keeps every real option as often as it occurs, so `[5, 5]` still has two real
      options, and drops every `ABSENT`. */
  lemma {:induction false} RealOptsCounts<V>(opts: seq<Entry<V>>, e: Entry<V>)
    ensures multiset(RealOpts(opts))[e] == if IsReal(e) then multiset(opts)[e] else 0
    decreases |opts|
  {
    if |opts| > 0 {
      var init := opts[..|opts| - 1];
      RealOptsCounts(init, e);
      assert opts == init + [opts[|opts| - 1]];
      assert multiset(opts) == multiset(init) + multiset{opts[|opts| - 1]};
    }
  }

  function MaxPriority<V>(s: seq<Entry<V>>): (r: real)
    requires |s| > 0
    ensures forall i :: 0 <= i < |s| ==> Priority(s[i]) <= r
    ensures exists i :: 0 <= i < |s| && Priority(s[i]) == r
  {
    if |s| == 1 then Priority(s[0])
    else
      var m := MaxPriority(s[..|s| - 1]);
      var p := Priority(s[|s| - 1]);
      assert forall i :: 0 <= i < |s| - 1 ==> s[..|s| - 1][i] == s[i];
      if p > m then p else m
  }

  /** How many options have priority `p`. */
  function CountAt<V>(s: seq<Entry<V>>, p: real): (n: nat)
    ensures n <= |s|
  {
    if |s| == 0 then 0
    else CountAt(s[..|s| - 1], p) + (if Priority(s[|s| - 1]) == p then 1 else 0)
  }

  /** The first option with priority `p`: the one a stable sort puts in front. */
  function FirstAt<V>(s: seq<Entry<V>>, p: real): (i: nat)
    requires exists k :: 0 <= k < |s| && Priority(s[k]) == p
    ensures i < |s| && Priority(s[i]) == p
    ensures forall k :: 0 <= k < i ==> Priority(s[k]) != p
  {
    if Priority(s[0]) == p then 0
    else
      assert exists k :: 0 <= k < |s[1..]| && Priority(s[1..][k]) == p by {
        var k :| 0 <= k < |s| && Priority(s[k]) == p;
        assert Priority(s[1..][k - 1]) == p;
      }
      1 + FirstAt(s[1..], p)
  }

  /** The outcome of `choose`: `(False, None)`, `(True, value)`, or a `ConflictError`. */
  datatype Choice<V> = NotSet | Chosen(value: Val<V>) | Conflict

  /** The sorting step of `choose` on the options it ranks: a tie at the highest priority is a
      conflict, otherwise the option with the highest priority wins and is unwrapped. */
  function Decide<V>(s: seq<Entry<V>>): Choice<V>
    requires |s| > 0
  {
    var top := MaxPriority(s);
    if CountAt(s, top) >= 2 then Conflict else Chosen(Unwrap(s[FirstAt(s, top)]))
  }

  /** `choose(opts)` as written: the `ABSENT` options are filtered out to count the real ones,
      but the ranking step then runs over all of `opts`, `ABSENT` included at priority 0. */
  function ChooseAsWritten<V(==)>(opts: seq<Entry<V>>): Choice<V> {
    var reals := RealOpts(opts);
    if |reals| == 0 then NotSet
    else if |reals| == 1 then Chosen(Unwrap(reals[0]))
    else Decide(opts)
  }

  /** `choose(opts)` as intended: every step looks at the real options only. */
  function Choose<V(==)>(opts: seq<Entry<V>>): Choice<V> {
    var reals := RealOpts(opts);
    if |reals| == 0 then NotSet
    else if |reals| == 1 then Chosen(Unwrap(reals[0]))
    else Decide(reals)
  }

  lemma {:induction false} CountAtPositive<V>(s: seq<Entry<V>>, p: real, i: int)
    requires 0 <= i < |s| && Priority(s[i]) == p
    ensures CountAt(s, p) >= 1
    decreases |s|
  {
    if i < |s| - 1 {
      CountAtPositive(s[..|s| - 1], p, i);
    }
  }

  lemma {:induction false} CountAtTwo<V>(s: seq<Entry<V>>, p: real, i: int, j: int)
    requires 0 <= i < j < |s| && Priority(s[i]) == p && Priority(s[j]) == p
    ensures CountAt(s, p) >= 2
    decreases |s|
  {
    var init := s[..|s| - 1];
    if j < |s| - 1 {
      CountAtTwo(init, p, i, j);
    } else {
      CountAtPositive(init, p, i);
    }
  }

  lemma {:induction false} CountAtTwoWitness<V>(s: seq<Entry<V>>, p: real)
    requires CountAt(s, p) >= 2
    ensures exists i, j :: 0 <= i < j < |s| && Priority(s[i]) == p && Priority(s[j]) == p
    decreases |s|
  {
    var init := s[..|s| - 1];
    assert forall k :: 0 <= k < |init| ==> init[k] == s[k];
    if CountAt(init, p) >= 2 {
      CountAtTwoWitness(init, p);
      var i, j :| 0 <= i < j < |init| && Priority(init[i]) == p && Priority(init[j]) == p;
      assert Priority(s[i]) == p && Priority(s[j]) == p;
    } else {
      CountAtOneWitness(init, p);
      var i :| 0 <= i < |init| && Priority(init[i]) == p;
      assert Priority(s[i]) == p && Priority(s[|s| - 1]) == p;
    }
  }

  lemma {:induction false} CountAtOneWitness<V>(s: seq<Entry<V>>, p: real)
    requires CountAt(s, p) >= 1
    ensures exists i :: 0 <= i < |s| && Priority(s[i]) == p
    decreases |s|
  {
    var init := s[..|s| - 1];
    if Priority(s[|s| - 1]) != p {
      CountAtOneWitness(init, p);
      var i :| 0 <= i < |init| && Priority(init[i]) == p;
      assert s[i] == init[i];
    }
  }

  /** The ranking step reports a conflict exactly when two options share the top priority. */
  lemma DecideConflict<V>(s: seq<Entry<V>>)
    requires |s| > 0
    ensures Decide(s) == Conflict <==>
      exists i, j :: 0 <= i < j < |s| && Priority(s[i]) == MaxPriority(s) && Priority(s[j]) == MaxPriority(s)
  {
    var top := MaxPriority(s);
    if CountAt(s, top) >= 2 {
      CountAtTwoWitness(s, top);
    } else if exists i, j :: 0 <= i < j < |s| && Priority(s[i]) == top && Priority(s[j]) == top {
      var i, j :| 0 <= i < j < |s| && Priority(s[i]) == top && Priority(s[j]) == top;
      CountAtTwo(s, top, i, j);
    }
  }

  /** Otherwise the winner is an option whose priority is strictly above every other's. */
  lemma DecideWinner<V>(s: seq<Entry<V>>)
    requires |s| > 0 && Decide(s).Chosen?
    ensures exists i :: (0 <= i < |s| && Unwrap(s[i]) == Decide(s).value
      && (forall j :: 0 <= j < |s| && j != i ==> Priority(s[j]) < Priority(s[i])))
  {
    var top := MaxPriority(s);
    var i := FirstAt(s, top);
    forall j | 0 <= j < |s| && j != i
      ensures Priority(s[j]) < Priority(s[i])
    {
      if Priority(s[j]) == top {
        if i < j { CountAtTwo(s, top, i, j); } else { CountAtTwo(s, top, j, i); }
      }
    }
  }

  /** `choose` reports "not set" exactly when every option is `ABSENT`. */
  lemma ChooseNotSet<V>(opts: seq<Entry<V>>)
    ensures Choose(opts) == NotSet <==> forall i :: 0 <= i < |opts| ==> !IsReal(opts[i])
  {
    if Choose(opts) != NotSet {
      assert RealOpts(opts)[0] in opts;
    }
  }

  /** With a single real option, that option's value is chosen, unwrapped. */
  lemma ChooseSingle<V>(opts: seq<Entry<V>>, i: int)
    requires 0 <= i < |opts| && IsReal(opts[i])
    requires forall j :: 0 <= j < |opts| && j != i ==> !IsReal(opts[j])
    ensures Choose(opts) == Chosen(Unwrap(opts[i]))
  {
    var r := RealOpts(opts);
    assert opts[i] in r;
    if |r| >= 2 {
      assert r[0] in opts && r[1] in opts;
      assert r[0] == opts[i] && r[1] == opts[i];
      RealOptsHasNoDuplicates(opts, i);
      assert false;
    }
  }

  /** An option that occurs once among the real options is kept once. */
  lemma {:induction false} RealOptsHasNoDuplicates<V>(opts: seq<Entry<V>>, i: int)
    requires 0 <= i < |opts| && IsReal(opts[i])
    requires forall j :: 0 <= j < |opts| && j != i ==> !IsReal(opts[j])
    ensures RealOpts(opts) == [opts[i]]
    decreases |opts|
  {
    var init := opts[..|opts| - 1];
    if i == |opts| - 1 {
      NoRealOpts(init);
    } else {
      assert init[i] == opts[i];
      RealOptsHasNoDuplicates(init, i);
    }
  }

  lemma {:induction false} NoRealOpts<V>(opts: seq<Entry<V>>)
    requires forall j :: 0 <= j < |opts| ==> !IsReal(opts[j])
    ensures RealOpts(opts) == []
    decreases |opts|
  {
    if |opts| > 0 {
      NoRealOpts(opts[..|opts| - 1]);
    }
  }

  /** With two or more real options, `choose` conflicts exactly when two of them share the top
      priority, and otherwise returns the unwrapped value of the one real option whose priority
      is strictly above all others. */
  lemma ChooseAmongSeveral<V>(opts: seq<Entry<V>>)
    requires |RealOpts(opts)| >= 2
    ensures var r := RealOpts(opts);
      Choose(opts) == Conflict <==>
        exists i, j :: 0 <= i < j < |r| && Priority(r[i]) == MaxPriority(r) && Priority(r[j]) == MaxPriority(r)
    ensures var r := RealOpts(opts);
      Choose(opts).Chosen? ==>
        exists i :: (0 <= i < |r| && Unwrap(r[i]) == Choose(opts).value
          && (forall j :: 0 <= j < |r| && j != i ==> Priority(r[j]) < Priority(r[i])))
    ensures Choose(opts) != NotSet
  {
    DecideConflict(RealOpts(opts));
    if Choose(opts).Chosen? {
      DecideWinner(RealOpts(opts));
    }
  }

  /** Where no option is `ABSENT`, and whenever there are only two options (as in
      `selfless_interact`), the written `choose` agrees with the intended one. */
  lemma ChooseAsWrittenAgrees<V>(opts: seq<Entry<V>>)
    requires (forall i :: 0 <= i < |opts| ==> IsReal(opts[i])) || |opts| == 2
    ensures ChooseAsWritten(opts) == Choose(opts)
  {
    if forall i :: 0 <= i < |opts| ==> IsReal(opts[i]) {
      AllRealOpts(opts);
    }
  }

  lemma {:induction false} AllRealOpts<V>(opts: seq<Entry<V>>)
    requires forall i :: 0 <= i < |opts| ==> IsReal(opts[i])
    ensures RealOpts(opts) == opts
    decreases |opts|
  {
    if |opts| > 0 {
      AllRealOpts(opts[..|opts| - 1]);
    }
  }

  lemma RealOptsOfThree<V>(x: Entry<V>, y: Entry<V>, z: Entry<V>)
    ensures RealOpts([x, y, z])
         == (if IsReal(x) then [x] else []) + (if IsReal(y) then [y] else []) + (if IsReal(z) then [z] else [])
  {
    assert [x, y, z][..2] == [x, y];
    assert [x, y][..1] == [x];
    assert [x][..0] == [];
    assert RealOpts([x]) == [] + (if IsReal(x) then [x] else []);
    assert RealOpts([x, y]) == RealOpts([x]) + (if IsReal(y) then [y] else []);
    assert RealOpts([x, y, z]) == RealOpts([x, y]) + (if IsReal(z) then [z] else []);
  }

  lemma CountAtOfThree<V>(x: Entry<V>, y: Entry<V>, z: Entry<V>, p: real)
    ensures CountAt([x, y, z], p)
         == (if Priority(x) == p then 1 else 0) + (if Priority(y) == p then 1 else 0) + (if Priority(z) == p then 1 else 0)
  {
    assert [x, y, z][..2] == [x, y];
    assert [x, y][..1] == [x];
    assert [x][..0] == [];
    assert CountAt([x], p) == CountAt([x][..0], p) + (if Priority(x) == p then 1 else 0);
    assert CountAt([x, y], p) == CountAt([x], p) + (if Priority(y) == p then 1 else 0);
  }

  /** Ranking two options: the higher priority wins, and equal priorities conflict. */
  lemma DecideOfTwo<V>(x: Entry<V>, y: Entry<V>)
    ensures Priority(x) > Priority(y) ==> Decide([x, y]) == Chosen(Unwrap(x))
    ensures Priority(x) < Priority(y) ==> Decide([x, y]) == Chosen(Unwrap(y))
    ensures Priority(x) == Priority(y) ==> Decide([x, y]) == Conflict
  {
    var top := if Priority(x) >= Priority(y) then Priority(x) else Priority(y);
    assert MaxPriority([x, y]) == top;
    assert [x, y][..1] == [x];
    assert [x][..0] == [];
    assert CountAt([x], top) == (if Priority(x) == top then 1 else 0);
    assert CountAt([x, y], top) == CountAt([x], top) + (if Priority(y) == top then 1 else 0);
    assert Priority(x) == top ==> FirstAt([x, y], top) == 0;
    assert Priority(x) != top ==> FirstAt([x, y], top) == 1;
  }

  lemma MaxOfThree<V>(x: Entry<V>, y: Entry<V>, z: Entry<V>)
    requires Priority(x) >= Priority(y) && Priority(x) >= Priority(z)
    ensures MaxPriority([x, y, z]) == Priority(x)
  {
  }

  /** With three options the written `choose` goes wrong: an `ABSENT` option ties with a plain
      value at priority 0 and raises a conflict where the real options have a clear winner. */
  lemma AbsentTiesWithPlainValue(a: int, b: int)
    ensures ChooseAsWritten([AbsentEntry(), Raw(Obj(a)), Over(Obj(b), -1.0)]) == Conflict
    ensures Choose([AbsentEntry(), Raw(Obj(a)), Over(Obj(b), -1.0)]) == Chosen(Obj(a))
  {
    var x, y, z := AbsentEntry<int>(), Raw(Obj(a)), Over(Obj(b), -1.0);
    RealOptsOfThree(x, y, z);
    assert RealOpts([x, y, z]) == [y, z];
    MaxOfThree(x, y, z);
    CountAtOfThree(x, y, z, 0.0);
    DecideOfTwo(y, z);
  }

  /** And an `ABSENT` option outranks two negative overrides and is returned as the chosen
      value, although the real options have a clear winner. */
  lemma AbsentOutranksNegativeOverrides(a: int, b: int)
    ensures ChooseAsWritten([AbsentEntry(), Over(Obj(a), -1.0), Over(Obj(b), -2.0)]) == Chosen(Absent)
    ensures Choose([AbsentEntry(), Over(Obj(a), -1.0), Over(Obj(b), -2.0)]) == Chosen(Obj(a))
  {
    var x, y, z := AbsentEntry<int>(), Over(Obj(a), -1.0), Over(Obj(b), -2.0);
    RealOptsOfThree(x, y, z);
    assert RealOpts([x, y, z]) == [y, z];
    MaxOfThree(x, y, z);
    CountAtOfThree(x, y, z, 0.0);
    DecideOfTwo(y, z);
  }

  // ---------------------------------------------------------------------------
  // selfless_interact

  datatype InteractError = NameError(sym: string) | ConflictError

  /** `selfless_interact`: the value the function computes or receives competes with the value
      found in the state. */
  function Interact<V(==)>(sym: string, value: Entry<V>, fromState: Entry<V>): Result<Val<V>, InteractError> {
    match Choose([value, fromState])
    case NotSet => Err(NameError(sym))
    case Conflict => Err(ConflictError)
    case Chosen(v) => Ok(v)
  }

  /** Every outcome of an interaction: unset on both sides is a `NameError`, a single side wins
      alone, and two set sides are decided by priority, a tie being a `ConflictError`. */
  lemma InteractOutcomes<V>(sym: string, value: Entry<V>, fromState: Entry<V>)
    ensures !IsReal(value) && !IsReal(fromState) ==> Interact(sym, value, fromState) == Err(NameError(sym))
    ensures IsReal(value) && !IsReal(fromState) ==> Interact(sym, value, fromState) == Ok(Unwrap(value))
    ensures !IsReal(value) && IsReal(fromState) ==> Interact(sym, value, fromState) == Ok(Unwrap(fromState))
    ensures IsReal(value) && IsReal(fromState) ==>
      && (Priority(value) > Priority(fromState) ==> Interact(sym, value, fromState) == Ok(Unwrap(value)))
      && (Priority(value) < Priority(fromState) ==> Interact(sym, value, fromState) == Ok(Unwrap(fromState)))
      && (Priority(value) == Priority(fromState) ==> Interact(sym, value, fromState) == Err(ConflictError))
  {
    var opts := [value, fromState];
    assert opts[..1] == [value];
    if IsReal(value) && !IsReal(fromState) {
      ChooseSingle(opts, 0);
    } else if !IsReal(value) && IsReal(fromState) {
      ChooseSingle(opts, 1);
    } else if !IsReal(value) && !IsReal(fromState) {
      NoRealOpts(opts);
    } else {
      AllRealOpts(opts);
      DecideOfTwo(value, fromState);
    }
  }

  /** The interactions behind the test cases: a plain state value clashes with a computed one,
      an `Override` in the state beats it, a plain state argument loses to a call argument, an
      `Override` in the state beats a plain call argument, ties with an explicit `Override`
      argument, and loses to one of higher priority. */
  lemma InteractExamples()
    ensures Interact("rval", Raw(Obj(25)), Raw(Obj(1234))) == Err(ConflictError)
    ensures Interact("rval", Raw(Obj(25)), Over(Obj(1234), 1.0)) == Ok(Obj(1234))
    ensures Interact("x", MakeOverride(Raw(Obj(4)), 0.5), Raw(Obj(2))) == Ok(Obj(4))
    ensures Interact("x", MakeOverride(Raw(Obj(4)), 0.5), Over(Obj(2), 1.0)) == Ok(Obj(2))
    ensures Interact("x", MakeOverride(Over(Obj(4), 1.0), 0.5), Over(Obj(2), 1.0)) == Err(ConflictError)
    ensures Interact("x", MakeOverride(Over(Obj(4), 2.0), 0.5), Over(Obj(2), 1.0)) == Ok(Obj(4))
    ensures Interact("z", MakeOverride(AbsentEntry(), 0.5), AbsentEntry<int>()) == Ok(Absent)
    ensures Interact("z", AbsentEntry(), AbsentEntry<int>()) == Err(NameError("z"))
  {
    InteractOutcomes("rval", Raw(Obj(25)), Raw(Obj(1234)));
    InteractOutcomes("rval", Raw(Obj(25)), Over(Obj(1234), 1.0));
    InteractOutcomes("x", MakeOverride(Raw(Obj(4)), 0.5), Raw(Obj(2)));
    InteractOutcomes("x", MakeOverride(Raw(Obj(4)), 0.5), Over(Obj(2), 1.0));
    InteractOutcomes("x", MakeOverride(Over(Obj(4), 1.0), 0.5), Over(Obj(2), 1.0));
    InteractOutcomes("x", MakeOverride(Over(Obj(4), 2.0), 0.5), Over(Obj(2), 1.0));
    InteractOutcomes("z", MakeOverride(AbsentEntry(), 0.5), AbsentEntry<int>());
    InteractOutcomes("z", AbsentEntry(), AbsentEntry<int>());
  }

  // ---------------------------------------------------------------------------
  // State objects

  /** An instance of a generated state class: a fixed set of `__slots__`, some of them set. */
  class State<V(==)> {
    const slots: set<string>
    var values: map<string, Entry<V>>

    ghost predicate Valid()
      reads this
    {
      values.Keys <= slots
    }

    /** `BaseState.__init__(values)`. */
    constructor (slots: set<string>, init: map<string, Entry<V>>)
      requires init.Keys <= slots
      ensures Valid()
      ensures this.slots == slots && values == init
    {
      this.slots := slots;
      values := init;
    }

    /** `getattr(state, name, ABSENT)`: an unset or unknown attribute reads as `ABSENT`. */
    function Get(name: string): (r: Entry<V>)
      reads this
      ensures name !in values ==> r == AbsentEntry()
      ensures name in values ==> r == values[name]
    {
      if name in values then values[name] else AbsentEntry()
    }

    /** `setattr(state, name, value)`; `ok` is false where Python raises `AttributeError`
        because the name is not a slot. */
    method Set(name: string, value: Entry<V>) returns (ok: bool)
      requires Valid()
      modifies this
      ensures Valid()
      ensures ok <==> name in slots
      ensures values == if ok then old(values)[name := value] else old(values)
    {
      ok := name in slots;
      if ok {
        values := values[name := value];
      }
    }

    /** `copy(state)`: a new object with the same slots and values. */
    method Copy() returns (s: State<V>)
      requires Valid()
      ensures fresh(s) && s.Valid()
      ensures s.slots == slots && s.values == values
    {
      s := new State(slots, values);
    }
  }

  /** A module's global namespace, which may still be filled in after the function is made. */
  class Namespace<V> {
    var entries: map<string, V>

    constructor (entries: map<string, V>)
      ensures this.entries == entries
    {
      this.entries := entries;
    }
  }

  /** What `PreState.make` stores for a free variable: its global binding, else its builtin,
      else `ABSENT`. */
  function Resolved<V>(name: string, glbls: map<string, V>, builtins: map<string, V>): Entry<V> {
    if name in glbls then Raw(Obj(glbls[name]))
    else if name in builtins then Raw(Obj(builtins[name]))
    else AbsentEntry()
  }

  /** The state values after each of `names` has been set to its resolved value, in order. */
  function Filled<V>(values: map<string, Entry<V>>, names: seq<string>, glbls: map<string, V>, builtins: map<string, V>): map<string, Entry<V>> {
    if |names| == 0 then values
    else Filled(values, names[..|names| - 1], glbls, builtins)[names[|names| - 1] := Resolved(names[|names| - 1], glbls, builtins)]
  }

  /** After `make`, every free variable holds its resolved value and the other slots are as
      they were. */
  lemma {:induction false} FilledResolves<V>(values: map<string, Entry<V>>, names: seq<string>, glbls: map<string, V>, builtins: map<string, V>)
    ensures Filled(values, names, glbls, builtins).Keys == values.Keys + set n | n in names
    ensures forall n :: n in names ==> Filled(values, names, glbls, builtins)[n] == Resolved(n, glbls, builtins)
    ensures forall k :: k in values && k !in names ==> Filled(values, names, glbls, builtins)[k] == values[k]
    decreases |names|
  {
    if |names| > 0 {
      var init := names[..|names| - 1];
      FilledResolves(values, init, glbls, builtins);
      assert names == init + [names[|names| - 1]];
    }
  }

  /** `PreState`: a state object whose free variables are filled from the globals the first time
      the state is needed. */
  class PreState<V(==)> {
    const state: State<V>
    const names: seq<string>
    const glbls: Namespace<V>
    const builtins: map<string, V>

    ghost predicate Valid()
      reads this, state
    {
      state.Valid() && (forall n :: n in names ==> n in state.slots)
    }

    constructor (state: State<V>, names: seq<string>, glbls: Namespace<V>, builtins: map<string, V>)
      requires state.Valid() && forall n :: n in names ==> n in state.slots
      ensures Valid()
      ensures this.state == state && this.names == names && this.glbls == glbls && this.builtins == builtins
    {
      this.state := state;
      this.names := names;
      this.glbls := glbls;
      this.builtins := builtins;
    }

    /** `PreState.make`. */
    method Make() returns (s: State<V>)
      requires Valid()
      modifies state
      ensures Valid()
      ensures s == state
      ensures state.values == Filled(old(state.values), names, glbls.entries, builtins)
    {
      for i := 0 to |names|
        invariant state.Valid()
        invariant state.values == Filled(old(state.values), names[..i], glbls.entries, builtins)
      {
        assert names[..i + 1][..i] == names[..i];
        var name := names[i];
        var val: Entry<V> := if name in glbls.entries then Raw(Obj(glbls.entries[name])) else AbsentEntry();
        if val == AbsentEntry() {
          val := if name in builtins then Raw(Obj(builtins[name])) else AbsentEntry();
        }
        assert val == Resolved(name, glbls.entries, builtins);
        var ok := state.Set(name, val);
      }
      assert names[..|names|] == names;
      s := state;
    }
  }

  /** The values after `setattr(state, k, v)` for each pair in order. */
  function Assigned<V>(values: map<string, Entry<V>>, updates: seq<(string, Entry<V>)>): map<string, Entry<V>> {
    if |updates| == 0 then values
    else Assigned(values, updates[..|updates| - 1])[updates[|updates| - 1].0 := updates[|updates| - 1].1]
  }

  /** The last assignment to a name wins; names never assigned keep their values. */
  lemma {:induction false} AssignedLastWins<V>(values: map<string, Entry<V>>, updates: seq<(string, Entry<V>)>, k: string)
    ensures (forall i :: 0 <= i < |updates| ==> updates[i].0 != k) ==>
      (k in Assigned(values, updates) <==> k in values)
      && (k in values ==> Assigned(values, updates)[k] == values[k])
    ensures |updates| > 0 && updates[|updates| - 1].0 == k ==>
      k in Assigned(values, updates) && Assigned(values, updates)[k] == updates[|updates| - 1].1
    decreases |updates|
  {
    if |updates| > 0 {
      AssignedLastWins(values, updates[..|updates| - 1], k);
    }
  }

  /** The `state=` keyword of `clone`: absent, a state object, or a `PreState` still to be made. */
  datatype StateArg<V(==)> = NoState | GivenState(stateObj: State<V>) | GivenPre(preState: PreState<V>)

  /** A function transformed by `@selfless`, with its state. The state starts out as a
      `PreState` (`pre` not null) and is materialized on first use. */
  class Selfless<V(==)> {
    /** The wrapped function's `__name__`; the function itself is not modelled. */
    const fnName: string
    var pre: PreState?<V>
    var st: State<V>

    ghost predicate Valid()
      reads this, st, pre
    {
      st.Valid() && (pre != null ==> pre.state == st && pre.Valid())
    }

    /** `Selfless(fn, state)` on a state that is still to be made. */
    constructor FromPreState(fnName: string, pre: PreState<V>)
      requires pre.Valid()
      ensures Valid()
      ensures this.fnName == fnName && this.pre == pre && st == pre.state
    {
      this.fnName := fnName;
      this.pre := pre;
      st := pre.state;
    }

    /** `Selfless(fn, state)` on a state object. */
    constructor FromState(fnName: string, st: State<V>)
      requires st.Valid()
      ensures Valid()
      ensures this.fnName == fnName && pre == null && this.st == st
    {
      this.fnName := fnName;
      pre := null;
      this.st := st;
    }

    /** The `state` property: a pending `PreState` is made once and then replaced by the state
        object it filled. */
    method Materialize()
      requires Valid()
      modifies this, st
      ensures Valid() && pre == null && st == old(st)
      ensures old(pre) != null ==>
        st.values == Filled(old(st.values), old(pre.names), old(pre.glbls.entries), old(pre.builtins))
      ensures old(pre) == null ==> st.values == old(st.values)
    {
      if pre != null {
        var s := pre.Make();
        st := s;
        pre := null;
      }
    }

    /** `clone(**kwargs)`: a new `Selfless` on `fn` and on a copy of the (made) state, either of
        which a keyword argument can replace; the copy is made even when `state` is replaced. A
        replacing state object is shared, not copied, and a replacing `PreState` stays pending
        until the clone's state is first needed. */
    method Clone(fnArg: Option<string>, stateArg: StateArg<V>) returns (r: Selfless<V>)
      requires Valid()
      requires stateArg.GivenState? ==> stateArg.stateObj.Valid()
      requires stateArg.GivenPre? ==> stateArg.preState.Valid()
      modifies this, st
      ensures Valid() && pre == null && st == old(st)
      ensures old(pre) != null ==>
        st.values == Filled(old(st.values), old(pre.names), old(pre.glbls.entries), old(pre.builtins))
      ensures old(pre) == null ==> st.values == old(st.values)
      ensures fresh(r) && r.Valid()
      ensures r.fnName == (if fnArg.Some? then fnArg.value else fnName)
      ensures stateArg.NoState? ==>
        fresh(r.st) && r.pre == null && r.st.slots == st.slots && r.st.values == st.values
      ensures stateArg.GivenState? ==> r.pre == null && r.st == stateArg.stateObj
      ensures stateArg.GivenPre? ==> r.pre == stateArg.preState && r.st == stateArg.preState.state
    {
      Materialize();
      var s := st.Copy();
      var f := if fnArg.Some? then fnArg.value else fnName;
      if stateArg.GivenState? {
        r := new Selfless.FromState(f, stateArg.stateObj);
      } else if stateArg.GivenPre? {
        r := new Selfless.FromPreState(f, stateArg.preState);
      } else {
        r := new Selfless.FromState(f, s);
      }
    }

    method New(updates: seq<(string, Entry<V>)>) returns (r: Selfless?<V>)
      requires Valid()
      modifies this, st
      ensures Valid() && pre == null && st == old(st)
      ensures old(pre) != null ==>
        st.values == Filled(old(st.values), old(pre.names), old(pre.glbls.entries), old(pre.builtins))
      ensures old(pre) == null ==> st.values == old(st.values)
      ensures r != null <==> forall i :: 0 <= i < |updates| ==> updates[i].0 in st.slots
      ensures r != null ==> fresh(r) && fresh(r.st) && r.Valid() && r.pre == null && r.fnName == fnName
      ensures r != null ==> r.st.slots == st.slots && r.st.values == Assigned(st.values, updates)
    {
      var c := Clone(None, NoState);
      for i := 0 to |updates|
        invariant Valid() && pre == null && st == old(st)
        invariant old(pre) != null ==>
          st.values == Filled(old(st.values), old(pre.names), old(pre.glbls.entries), old(pre.builtins))
        invariant old(pre) == null ==> st.values == old(st.values)
        invariant fresh(c) && fresh(c.st) && c.Valid() && c.pre == null && c.fnName == fnName
        invariant c.st.slots == st.slots
        invariant forall j :: 0 <= j < i ==> updates[j].0 in st.slots
        invariant c.st.values == Assigned(st.values, updates[..i])
      {
        assert updates[..i + 1][..i] == updates[..i];
        var ok := c.st.Set(updates[i].0, updates[i].1);
        if !ok {
          return null;
        }
      }
      assert updates[..|updates|] == updates;
      r := c;
    }

    /** `get(name)`: the (made) state's attribute, `ABSENT` when unset. */
    method Get(name: string) returns (e: Entry<V>)
      requires Valid()
      modifies this, st
      ensures Valid() && pre == null && st == old(st)
      ensures old(pre) != null ==>
        st.values == Filled(old(st.values), old(pre.names), old(pre.glbls.entries), old(pre.builtins))
      ensures old(pre) == null ==> st.values == old(st.values)
      ensures e == st.Get(name)
    {
      Materialize();
      e := st.Get(name);
    }

    /** `selfless_interact(sym, ..., self, value)`. */
    method InteractWith(sym: string, value: Entry<V>) returns (r: Result<Val<V>, InteractError>)
      requires Valid()
      modifies this, st
      ensures Valid() && pre == null && st == old(st)
      ensures old(pre) != null ==>
        st.values == Filled(old(st.values), old(pre.names), old(pre.glbls.entries), old(pre.builtins))
      ensures old(pre) == null ==> st.values == old(st.values)
      ensures r == Interact(sym, value, st.Get(sym))
    {
      var fromState := Get(sym);
      r := Interact(sym, value, fromState);
    }
  }

  // ---------------------------------------------------------------------------
  // gensym

  function TempName(i: nat): string {
    "_ptera_tmp_" + NatToString(i)
  }

  /** Distinct counter values give distinct temporary names. */
  lemma TempNamesDistinct(i: nat, j: nat)
    requires i != j
    ensures TempName(i) != TempName(j)
  {
    if TempName(i) == TempName(j) {
      var p := "_ptera_tmp_";
      assert TempName(i)[|p|..] == NatToString(i);
      assert TempName(j)[|p|..] == NatToString(j);
      NatToStringInjective(i, j);
    }
  }

  /** The module-level counter behind `gensym`. */
  class Gensym {
    var idx: nat

    constructor ()
      ensures idx == 0
    {
      idx := 0;
    }

    /** `gensym()`: increments the counter and names the new value. */
    method Next() returns (s: string)
      modifies this
      ensures idx == old(idx) + 1
      ensures s == TempName(idx)
    {
      idx := idx + 1;
      s := TempName(idx);
    }
  }
}
