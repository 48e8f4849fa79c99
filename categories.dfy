/** The category registry and category arithmetic of ptera/categories.py. */
module Categories {
  import opened Common

  /** What the registry can hold: a `Category` object, which is known by its name alone
      (its `==` and `hash` look only at `name`), or a built-in Python type object, known by its
      qualified name. */
  datatype CatValue = Category(name: string) | PyType(qualname: string)

  /** `str()` of a registry entry: a category prints as its name, a type as `<class 'q'>`. */
  function Show(v: CatValue): string {
    match v
    case Category(n) => n
    case PyType(q) => "<class '" + q + "'>"
  }

  /** The registry as the module creates it: the six built-in type names. */
  function InitialRegistry(): (m: map<string, CatValue>)
    ensures m.Keys == {"int", "float", "str", "dict", "list", "tuple"}
    ensures forall k :: k in m ==> m[k] == PyType(k)
  {
    map["int" := PyType("int"), "float" := PyType("float"), "str" := PyType("str"),
        "dict" := PyType("dict"), "list" := PyType("list"), "tuple" := PyType("tuple")]
  }

  /** `register_category(name, obj)` succeeds exactly when `name` is new or already bound to an
      equal object; otherwise its `assert` fails. */
  predicate CanRegister(m: map<string, CatValue>, name: string, obj: CatValue) {
    name !in m || m[name] == obj
  }

  /** The registry after a successful `register_category`: an absent name is added, an
      existing entry is left as it is. */
  function Registered(m: map<string, CatValue>, name: string, obj: CatValue): (r: map<string, CatValue>)
    ensures r.Keys == m.Keys + {name}
    ensures forall k :: k in m ==> r[k] == m[k]
    ensures name !in m ==> r[name] == obj
  {
    if name in m then m else m[name := obj]
  }

  /** A sequence of registrations, stopping at the first that fails. */
  function RegisterAll(m: map<string, CatValue>, ops: seq<(string, CatValue)>): Result<map<string, CatValue>, string>
    decreases |ops|
  {
    if |ops| == 0 then Ok(m)
    else if !CanRegister(m, ops[0].0, ops[0].1) then Err(ops[0].0)
    else RegisterAll(Registered(m, ops[0].0, ops[0].1), ops[1..])
  }

  /** Registration is insert-only: whatever sequence of registrations succeeds, every entry that
      was there before is still there, bound to the same object. */
  lemma {:induction false} RegistrationNeverReplaces(m: map<string, CatValue>, ops: seq<(string, CatValue)>)
    requires RegisterAll(m, ops).Ok?
    ensures m.Keys <= RegisterAll(m, ops).value.Keys
    ensures forall k :: k in m ==> RegisterAll(m, ops).value[k] == m[k]
    decreases |ops|
  {
    if |ops| > 0 {
      RegistrationNeverReplaces(Registered(m, ops[0].0, ops[0].1), ops[1..]);
    }
  }

  /** A category cannot take the name of a built-in type: `Category("int")` fails its registration. */
  lemma BuiltinNamesAreTaken(name: string)
    requires name in {"int", "float", "str", "dict", "list", "tuple"}
    ensures !CanRegister(InitialRegistry(), name, Category(name))
  {
  }

  /** The global `category_registry` dictionary, filled in place. */
  class Registry {
    var entries: map<string, CatValue>

    constructor ()
      ensures entries == InitialRegistry()
    {
      entries := InitialRegistry();
    }

    /** `register_category(name, obj)`; `ok` is false where the source's `assert` fails. */
    method Register(name: string, obj: CatValue) returns (ok: bool)
      modifies this
      ensures ok == CanRegister(old(entries), name, obj)
      ensures entries == Registered(old(entries), name, obj)
    {
      if name in entries {
        ok := entries[name] == obj;
      } else {
        entries := entries[name := obj];
        ok := true;
      }
    }

    /** `Category(name)`: builds the category and registers it under its own name. */
    method NewCategory(name: string) returns (r: Option<CatValue>)
      modifies this
      ensures r.Some? <==> CanRegister(old(entries), name, Category(name))
      ensures r.Some? ==> r.value == Category(name) && name in entries && entries[name] == Category(name)
      ensures entries == Registered(old(entries), name, Category(name))
    {
      var c := Category(name);
      var ok := Register(name, c);
      r := if ok then Some(c) else None;
    }
  }

  // ---------------------------------------------------------------------------
  // Category arithmetic

  /** An operand of `+`: a single object (a category or any other hashable object such as a
      type) or a `CategorySet`, which holds a set of members. */
  datatype Addend = Single(v: CatValue) | Group(members: set<CatValue>)

  /** `a + b` under Python's operator protocol: `Category.__add__` and `CategorySet.__add__`
      are tried first on the left operand, then `__radd__` (the same function) on the right.
      Two plain objects that are neither categories nor sets are not added (`None`). */
  function Add(a: Addend, b: Addend): (r: Option<set<CatValue>>)
    ensures r.Some? <==> (a.Group? || a.v.Category? || b.Group? || b.v.Category?)
  {
    match (a, b)
    case (Group(m), Group(n)) => Some(m + n)
    case (Group(m), Single(x)) => Some(m + {x})
    case (Single(x), Group(n)) => Some(n + {x})
    case (Single(x), Single(y)) =>
      if x.Category? || y.Category? then Some({x, y}) else None
  }

  /** The members an operand contributes to a sum. */
  function Members(a: Addend): set<CatValue> {
    match a
    case Single(x) => {x}
    case Group(m) => m
  }

  /** Whenever a sum is defined it is the union of the operands' members, so the order of the
      operands never matters. */
  lemma AddIsUnion(a: Addend, b: Addend)
    requires Add(a, b).Some?
    ensures Add(a, b).value == Members(a) + Members(b)
    ensures Add(b, a) == Add(a, b)
  {
    match (a, b)
    case (Group(m), Group(n)) => assert m + n == n + m;
    case (Single(x), Single(y)) => assert {x, y} == {y, x};
    case _ =>
  }
}
