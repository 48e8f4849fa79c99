/** The evaluator of ptera/selector.py: the table of operator actions that turns a parsed
    selector (an operator tree) into `Element` and `Call` values, `_guarantee_call` and
    `to_pattern`. */
module Evaluator {
  import opened Common
  import opened Text
  import opened Categories
  import opened Selector

  /** A parsed selector: an absent operand (`None`), a token (a word) or an operator node with
      its shape key (such as `"X > X"`) and its operands. */
  datatype Ast = Blank | Token(word: string) | Node(key: string, args: seq<Ast>)

  /** What an action can return: `None`, an element, a call or a list (from `,`). */
  datatype Val = NoneV | El(elem: Element) | Cl(call: Call) | Lst(items: seq<Val>)

  /** The evaluation context: `"root"` or `"incall"` (inside the braces of a call). */
  datatype Context = Root | InCall

  /** The exceptions evaluation can raise. */
  datatype EvalError =
    | SyntaxError(key: string)
    | AssertionFailed
    | AttributeError
    | KeyError(missing: Name)
    | TypeError

  /** The registered actions, one per operator shape. */
  datatype Action =
    | Parens | NestImm | Nest | NestImmPrefix | NestPrefix
    | Classify | BareClass | MarkFocus | Dollar | Instance
    | CallEmpty | CallCapture | Sequence | As | Equals | Symbol

  const Actions: map<string, Action> := map[
    "_ ( X ) _" := Parens,
    "X > X" := NestImm,
    "X >> X" := Nest,
    "_ > X" := NestImmPrefix,
    "_ >> X" := NestPrefix,
    "X : X" := Classify,
    "_ : X" := BareClass,
    "_ ! X" := MarkFocus,
    "_ $ X" := Dollar,
    "X [ X ] _" := Instance,
    "X { _ } _" := CallEmpty,
    "X { X } _" := CallCapture,
    "X , X" := Sequence,
    "X as X" := As,
    "X = X" := Equals,
    "SYMBOL" := Symbol
  ]

  /** The registered actions, key by key. */
  lemma ActionTable()
    ensures "_ ( X ) _" in Actions && Actions["_ ( X ) _"] == Parens
    ensures "X > X" in Actions && Actions["X > X"] == NestImm
    ensures "X >> X" in Actions && Actions["X >> X"] == Nest
    ensures "_ > X" in Actions && Actions["_ > X"] == NestImmPrefix
    ensures "_ >> X" in Actions && Actions["_ >> X"] == NestPrefix
    ensures "X : X" in Actions && Actions["X : X"] == Classify
    ensures "_ : X" in Actions && Actions["_ : X"] == BareClass
    ensures "_ ! X" in Actions && Actions["_ ! X"] == MarkFocus
    ensures "_ $ X" in Actions && Actions["_ $ X"] == Dollar
    ensures "X [ X ] _" in Actions && Actions["X [ X ] _"] == Instance
    ensures "X { _ } _" in Actions && Actions["X { _ } _"] == CallEmpty
    ensures "X { X } _" in Actions && Actions["X { X } _"] == CallCapture
    ensures "X , X" in Actions && Actions["X , X"] == Sequence
    ensures "X as X" in Actions && Actions["X as X"] == As
    ensures "X = X" in Actions && Actions["X = X"] == Equals
    ensures "SYMBOL" in Actions && Actions["SYMBOL"] == Symbol
  {
  }

  /** How many operands each action's Python function takes after the node itself. */
  function Arity(a: Action): nat {
    match a
    case Parens => 3
    case Instance => 3
    case CallEmpty => 3
    case CallCapture => 3
    case Symbol => 0
    case _ => 2
  }

  /** The anonymous element `Element(name=None)`: it matches anything. */
  function Wildcard(): Element {
    Named(NoName)
  }

  // ---------------------------------------------------------------------------
  // The actions

  /** `make_symbol`: `*` is the wildcard, a word `int()` accepts becomes an uncaptured integer
      name, any other word names and captures itself. */
  function MakeSymbol(w: string): Element {
    if w == "*" then Wildcard()
    else if IsIntWord(w) then Named(Int(IntWordValue(w)))
    else Named(Str(w)).(capture := Str(w))
  }

  /** `_guarantee_call`: an element becomes a call on that element with its capture removed,
      immediate exactly inside a call's braces; a call is returned as it is. */
  function GuaranteeCall(v: Val, ctx: Context): (r: Result<Call, EvalError>)
    ensures r.Ok? <==> v.El? || v.Cl?
    ensures v.Cl? ==> r == Ok(v.call)
    ensures v.El? ==> r.Ok? && r.value.element.capture == NoName && r.value.immediate == (ctx == InCall)
  {
    match v
    case El(e) => Ok(Call(e.(capture := NoName), [], [], ctx == InCall))
    case Cl(c) => Ok(c)
    case _ => Err(AssertionFailed)
  }

  /** `make_nested_imm` (`X > X`): an element child becomes a focused capture of the parent, a
      call child an immediate child. */
  function MakeNestedImm(p: Val, ch: Val, ctx: Context): Result<Val, EvalError> {
    var parent :- GuaranteeCall(p, ctx);
    match ch
    case El(e) => Ok(Cl(parent.(captures := parent.captures + [e.(focus := true)])))
    case Cl(c) => Ok(Cl(parent.(children := parent.children + [c.(immediate := true)])))
    case _ => Err(TypeError)
  }

  /** `make_nested` (`X >> X`): an element child is wrapped in a wildcard call that captures it
      with focus; a call child is appended as it is. */
  function MakeNested(p: Val, ch: Val, ctx: Context): Result<Val, EvalError> {
    var parent :- GuaranteeCall(p, ctx);
    match ch
    case El(e) =>
      Ok(Cl(parent.(children := parent.children + [Call(Wildcard(), [], [e.(focus := true)], false)])))
    case Cl(c) => Ok(Cl(parent.(children := parent.children + [c])))
    case _ => Err(TypeError)
  }

  /** A category name looked up in `category_registry`; only strings can be keys there. */
  function Lookup(reg: map<string, CatValue>, n: Name): Option<CatValue> {
    if n.Str? && n.s in reg then Some(reg[n.s]) else None
  }

  /** `X : X`. */
  function MakeClass(e: Val, k: Val, reg: map<string, CatValue>): Result<Val, EvalError> {
    if !k.El? then Err(AssertionFailed)
    else if !e.El? then Err(AttributeError)
    else if e.elem.category.Some? then Err(AssertionFailed)
    else match Lookup(reg, k.elem.name)
      case None => Err(KeyError(k.elem.name))
      case Some(cat) => Ok(El(e.elem.(category := Some(cat))))
  }

  /** `_ : X`. */
  function MakeBareClass(k: Val, reg: map<string, CatValue>): Result<Val, EvalError> {
    if !k.El? then Err(AttributeError)
    else match Lookup(reg, k.elem.name)
      case None => Err(KeyError(k.elem.name))
      case Some(cat) => Ok(El(Wildcard().(category := Some(cat))))
  }

  /** `_ ! X`. */
  function MakeFocus(e: Val): Result<Val, EvalError> {
    if e.El? then Ok(El(e.elem.(focus := true))) else Err(AssertionFailed)
  }

  /** `_ $ X`. */
  function MakeDollar(n: Val): Result<Val, EvalError> {
    if n.El? then Ok(El(Wildcard().(capture := n.elem.name, keyField := NameKey)))
    else Err(AttributeError)
  }

  /** The `#key` element that `X [ X ] _` adds for its key. */
  function InstanceKey(k: Element): Element {
    Element(
      Str("#key"),
      if k.name != NoName then Is(k.name) else Absent,
      k.category,
      if k.name != k.capture then k.capture else NoName,
      false,
      if k.name == NoName then ValueKey else NoKeyField)
  }

  /** `X [ X ] _`. */
  function MakeInstance(e: Val, k: Val, ctx: Context): Result<Val, EvalError> {
    if !e.El? || !k.El? then Err(AssertionFailed)
    else
      var call :- GuaranteeCall(e, ctx);
      Ok(Cl(call.(captures := call.captures + [InstanceKey(k.elem)])))
  }

  /** The elements among the values, in order. */
  function ElementsOf(vs: seq<Val>): (r: seq<Element>)
    ensures |r| <= |vs|
    ensures forall x :: x in r <==> El(x) in vs
  {
    if |vs| == 0 then []
    else
      var init := ElementsOf(vs[..|vs| - 1]);
      assert vs == vs[..|vs| - 1] + [vs[|vs| - 1]];
      if vs[|vs| - 1].El? then init + [vs[|vs| - 1].elem] else init
  }

  /** The calls among the values, in order. */
  function CallsOf(vs: seq<Val>): (r: seq<Call>)
    ensures |r| <= |vs|
    ensures forall x :: x in r <==> Cl(x) in vs
  {
    if |vs| == 0 then []
    else
      var init := CallsOf(vs[..|vs| - 1]);
      assert vs == vs[..|vs| - 1] + [vs[|vs| - 1]];
      if vs[|vs| - 1].Cl? then init + [vs[|vs| - 1].call] else init
  }

  /** Appending a value extends the elements or the calls among the values. */
  lemma ValuesSnoc(vs: seq<Val>, v: Val)
    ensures ElementsOf(vs + [v]) == ElementsOf(vs) + (if v.El? then [v.elem] else [])
    ensures CallsOf(vs + [v]) == CallsOf(vs) + (if v.Cl? then [v.call] else [])
  {
    assert (vs + [v])[..|vs|] == vs;
  }

  /** `X { X } _`: elements among the names become captures and calls become children; other
      values are dropped. */
  function MakeCallCapture(f: Val, names: Val, ctx: Context): Result<Val, EvalError> {
    var items := if names.Lst? then names.items else [names];
    var call :- GuaranteeCall(f, ctx);
    Ok(Cl(call.(captures := call.captures + ElementsOf(items), children := call.children + CallsOf(items))))
  }

  /** `X , X`: the right operand's list, if it is one, is extended on the left. */
  function MakeSequence(a: Val, b: Val): Val {
    if b.Lst? then Lst([a] + b.items) else Lst([a, b])
  }

  /** `X as X`. */
  function MakeAs(e: Val, n: Val): Result<Val, EvalError> {
    if !n.El? || !e.El? then Err(AttributeError)
    else Ok(El(e.elem.(capture := n.elem.name, keyField := if e.elem.name == NoName then NameKey else NoKeyField)))
  }

  /** `X = X`. */
  function MakeEquals(e: Val, v: Val): Result<Val, EvalError> {
    if !v.El? then Err(AssertionFailed)
    else if !e.El? then Err(TypeError)
    else Ok(El(e.elem.(value := Is(v.elem.name), capture := NoName)))
  }

  // ---------------------------------------------------------------------------
  // Evaluator.__call__

  /** `evaluate(ast, context)`: the action registered for the node's key is applied to its
      operands; only the `X` operands are evaluated, and the names of a call are evaluated in
      the `incall` context. An unregistered key is a syntax error (there is no `DEFAULT`
      action), and a node with the wrong number of operands a `TypeError`. */
  function Evaluate(ast: Ast, ctx: Context, reg: map<string, CatValue>): Result<Val, EvalError>
    decreases ast
  {
    match ast
    case Blank => Ok(NoneV)
    case Token(w) => Ok(El(MakeSymbol(w)))
    case Node(key, args) =>
      if key !in Actions then Err(SyntaxError(key))
      else if |args| != Arity(Actions[key]) then Err(TypeError)
      else match Actions[key]
        case Parens => Evaluate(args[1], ctx, reg)
        case NestImm =>
          var p :- Evaluate(args[0], ctx, reg);
          var ch :- Evaluate(args[1], ctx, reg);
          MakeNestedImm(p, ch, ctx)
        case Nest =>
          var p :- Evaluate(args[0], ctx, reg);
          var ch :- Evaluate(args[1], ctx, reg);
          MakeNested(p, ch, ctx)
        case NestImmPrefix =>
          var ch :- Evaluate(args[1], ctx, reg);
          var c :- GuaranteeCall(ch, ctx);
          Ok(Cl(c.(immediate := true)))
        case NestPrefix =>
          var ch :- Evaluate(args[1], ctx, reg);
          var c :- GuaranteeCall(ch, ctx);
          Ok(Cl(c.(immediate := false)))
        case Classify =>
          var e :- Evaluate(args[0], ctx, reg);
          var k :- Evaluate(args[1], ctx, reg);
          MakeClass(e, k, reg)
        case BareClass =>
          var k :- Evaluate(args[1], ctx, reg);
          MakeBareClass(k, reg)
        case MarkFocus =>
          var e :- Evaluate(args[1], ctx, reg);
          MakeFocus(e)
        case Dollar =>
          var n :- Evaluate(args[1], ctx, reg);
          MakeDollar(n)
        case Instance =>
          var e :- Evaluate(args[0], ctx, reg);
          var k :- Evaluate(args[1], ctx, reg);
          MakeInstance(e, k, ctx)
        case CallEmpty =>
          var f :- Evaluate(args[0], ctx, reg);
          var c :- GuaranteeCall(f, ctx);
          Ok(Cl(c))
        case CallCapture =>
          var f :- Evaluate(args[0], ctx, reg);
          var names :- Evaluate(args[1], InCall, reg);
          MakeCallCapture(f, names, ctx)
        case Sequence =>
          var a :- Evaluate(args[0], ctx, reg);
          var b :- Evaluate(args[1], ctx, reg);
          Ok(MakeSequence(a, b))
        case As =>
          var e :- Evaluate(args[0], ctx, reg);
          var n :- Evaluate(args[1], ctx, reg);
          MakeAs(e, n)
        case Equals =>
          var e :- Evaluate(args[0], ctx, reg);
          var v :- Evaluate(args[1], ctx, reg);
          MakeEquals(e, v)
        case Symbol =>
          // only a token has the `value` that `make_symbol` reads
          Err(AttributeError)
  }

  /** `to_pattern` of an evaluated selector: a bare element is wrapped, with focus, in a
      wildcard call. */
  function ToPattern(v: Val): (r: Result<Call, EvalError>)
    ensures r.Ok? <==> v.El? || v.Cl?
    ensures v.Cl? ==> r == Ok(v.call)
    ensures v.El? ==> r == Ok(Call(Wildcard(), [], [v.elem.(focus := true)], false))
  {
    match v
    case El(e) => Ok(Call(Wildcard(), [], [e.(focus := true)], false))
    case Cl(c) => Ok(c)
    case _ => Err(AssertionFailed)
  }

  // ---------------------------------------------------------------------------
  // Properties of evaluation

  /** A word that is neither `*` nor an integer: it names and captures itself. */
  predicate PlainWord(w: string) {
    w != "*" && !IsIntWord(w)
  }

  /** The outcome is not a syntax error about a key that has an action. */
  predicate NoSpuriousSyntaxError(r: Result<Val, EvalError>) {
    r.Err? && r.error.SyntaxError? ==> r.error.key !in Actions
  }

  /** Every syntax error raised anywhere in a tree names a key that has no action. */
  lemma {:induction false} SyntaxErrorsNameUnknownKeys(ast: Ast, ctx: Context, reg: map<string, CatValue>)
    ensures NoSpuriousSyntaxError(Evaluate(ast, ctx, reg))
    decreases ast
  {
    if ast.Node? {
      forall i | 0 <= i < |ast.args|
        ensures NoSpuriousSyntaxError(Evaluate(ast.args[i], ctx, reg))
        ensures NoSpuriousSyntaxError(Evaluate(ast.args[i], InCall, reg))
      {
        SyntaxErrorsNameUnknownKeys(ast.args[i], ctx, reg);
        SyntaxErrorsNameUnknownKeys(ast.args[i], InCall, reg);
      }
      NodeSyntaxErrors(ast.key, ast.args, ctx, reg);
    }
  }

  /** One step of `SyntaxErrorsNameUnknownKeys`: a node whose operands raise no spurious syntax
      error raises none either, since no action raises one. */
  lemma NodeSyntaxErrors(key: string, args: seq<Ast>, ctx: Context, reg: map<string, CatValue>)
    requires forall i :: 0 <= i < |args| ==> NoSpuriousSyntaxError(Evaluate(args[i], ctx, reg))
    requires forall i :: 0 <= i < |args| ==> NoSpuriousSyntaxError(Evaluate(args[i], InCall, reg))
    ensures NoSpuriousSyntaxError(Evaluate(Node(key, args), ctx, reg))
  {
    if key in Actions && |args| == Arity(Actions[key]) {
      var act := Actions[key];
      if act.Parens? || act.NestImm? || act.Nest? || act.NestImmPrefix? || act.NestPrefix? {
        NestingSyntaxErrors(key, args, ctx, reg);
      } else if act.Classify? || act.BareClass? || act.MarkFocus? || act.Dollar? || act.Instance? {
        ElementSyntaxErrors(key, args, ctx, reg);
      } else {
        CallSyntaxErrors(key, args, ctx, reg);
      }
    }
  }

  /** `NodeSyntaxErrors` for grouping and nesting. */
  lemma NestingSyntaxErrors(key: string, args: seq<Ast>, ctx: Context, reg: map<string, CatValue>)
    requires key in Actions && |args| == Arity(Actions[key])
    requires Actions[key].Parens? || Actions[key].NestImm? || Actions[key].Nest?
          || Actions[key].NestImmPrefix? || Actions[key].NestPrefix?
    requires forall i :: 0 <= i < |args| ==> NoSpuriousSyntaxError(Evaluate(args[i], ctx, reg))
    ensures NoSpuriousSyntaxError(Evaluate(Node(key, args), ctx, reg))
  {
  }

  /** `NodeSyntaxErrors` for the operators that build elements, and for `X [ X ] _`. */
  lemma ElementSyntaxErrors(key: string, args: seq<Ast>, ctx: Context, reg: map<string, CatValue>)
    requires key in Actions && |args| == Arity(Actions[key])
    requires Actions[key].Classify? || Actions[key].BareClass? || Actions[key].MarkFocus?
          || Actions[key].Dollar? || Actions[key].Instance?
    requires forall i :: 0 <= i < |args| ==> NoSpuriousSyntaxError(Evaluate(args[i], ctx, reg))
    ensures NoSpuriousSyntaxError(Evaluate(Node(key, args), ctx, reg))
  {
  }

  /** `NodeSyntaxErrors` for calls, sequences, `as`, `=` and a bare symbol node. */
  lemma CallSyntaxErrors(key: string, args: seq<Ast>, ctx: Context, reg: map<string, CatValue>)
    requires key in Actions && |args| == Arity(Actions[key])
    requires Actions[key].CallEmpty? || Actions[key].CallCapture? || Actions[key].Sequence?
          || Actions[key].As? || Actions[key].Equals? || Actions[key].Symbol?
    requires forall i :: 0 <= i < |args| ==> NoSpuriousSyntaxError(Evaluate(args[i], ctx, reg))
    requires forall i :: 0 <= i < |args| ==> NoSpuriousSyntaxError(Evaluate(args[i], InCall, reg))
    ensures NoSpuriousSyntaxError(Evaluate(Node(key, args), ctx, reg))
  {
  }

  /** An operator node with no action is rejected before any operand is evaluated. */
  lemma UnknownOperatorIsSyntaxError(key: string, args: seq<Ast>, ctx: Context, reg: map<string, CatValue>)
    requires key !in Actions
    ensures Evaluate(Node(key, args), ctx, reg) == Err(SyntaxError(key))
  {
  }

  /** Parentheses only group: `(a)` evaluates as `a`. */
  lemma ParensAreTransparent(x: Ast, a: Ast, y: Ast, ctx: Context, reg: map<string, CatValue>)
    ensures Evaluate(Node("_ ( X ) _", [x, a, y]), ctx, reg) == Evaluate(a, ctx, reg)
  {
  }

  /** A call whose only part is one focused capture is a valid pattern with one focus. */
  lemma SingleCaptureIsValid(head: Element, x: Element, imm: bool)
    requires x.focus
    ensures Valid(Call(head, [], [x], imm)) && FocusCount(Call(head, [], [x], imm)) == 1
  {
    assert [x][..0] == [];
  }

  /** Appending a valid capture keeps a valid call valid when the call had no focus yet. */
  lemma AppendCaptureValid(c: Call, x: Element)
    requires Valid(c) && !Focus(c) && ElementValid(x)
    ensures Valid(c.(captures := c.captures + [x]))
    ensures FocusCount(c.(captures := c.captures + [x])) == (if x.focus then 1 else 0)
  {
    CountFocusedSnoc(c.captures, x);
    var d := c.(captures := c.captures + [x]);
    assert forall i :: 0 <= i < |d.captures| ==> d.captures[i] == if i < |c.captures| then c.captures[i] else x;
  }

  /** Appending a valid child keeps a valid call valid when the call had no focus yet. */
  lemma AppendChildValid(c: Call, q: Call)
    requires Valid(c) && !Focus(c) && Valid(q)
    ensures Valid(c.(children := c.children + [q]))
  {
    CountFocusedChildrenSnoc(c.children, q);
    var d := c.(children := c.children + [q]);
    assert FocusCount(d) == CountFocused(c.captures) + CountFocusedChildren(c.children + [q]);
    forall j | 0 <= j < |d.children|
      ensures Valid(d.children[j])
    {
      if j < |c.children| {
        assert d.children[j] == c.children[j];
      }
    }
  }

  /** The call `_guarantee_call` makes of an element is valid and has no focus. */
  lemma CoercedElementIsBlank(e: Element, ctx: Context)
    ensures Valid(GuaranteeCall(El(e), ctx).value) && !Focus(GuaranteeCall(El(e), ctx).value)
  {
  }

  /** `X > Y` and `X >> Y` evaluate both operands in the same context and hand them to
      `make_nested_imm` and `make_nested`. */
  lemma EvaluateNesting(a: Ast, b: Ast, ctx: Context, reg: map<string, CatValue>, pv: Val, cv: Val)
    requires Evaluate(a, ctx, reg) == Ok(pv) && Evaluate(b, ctx, reg) == Ok(cv)
    ensures Evaluate(Node("X > X", [a, b]), ctx, reg) == MakeNestedImm(pv, cv, ctx)
    ensures Evaluate(Node("X >> X", [a, b]), ctx, reg) == MakeNested(pv, cv, ctx)
  {
    ActionTable();
    assert [a, b][0] == a && [a, b][1] == b;
  }

  /** `X [ K ] _` evaluates `X` and `K` in the same context and hands them to `make_instance`. */
  lemma EvaluateInstance(a: Ast, k: Ast, ctx: Context, reg: map<string, CatValue>, pv: Val, kv: Val)
    requires Evaluate(a, ctx, reg) == Ok(pv) && Evaluate(k, ctx, reg) == Ok(kv)
    ensures Evaluate(Node("X [ X ] _", [a, k, Blank]), ctx, reg) == MakeInstance(pv, kv, ctx)
  {
    ActionTable();
    assert [a, k, Blank][0] == a && [a, k, Blank][1] == k;
  }

  /** `X { N } _` evaluates `X` in its context and `N` in the `incall` context, and hands them
      to `make_call_capture`. */
  lemma EvaluateCallCapture(a: Ast, n: Ast, ctx: Context, reg: map<string, CatValue>, pv: Val, nv: Val)
    requires Evaluate(a, ctx, reg) == Ok(pv) && Evaluate(n, InCall, reg) == Ok(nv)
    ensures Evaluate(Node("X { X } _", [a, n, Blank]), ctx, reg) == MakeCallCapture(pv, nv, ctx)
  {
    ActionTable();
    assert [a, n, Blank][0] == a && [a, n, Blank][1] == n;
  }

  /** `$w` is the anonymous element capturing `w` by name. */
  lemma EvaluateDollarWord(w: string, ctx: Context, reg: map<string, CatValue>)
    ensures Evaluate(Node("_ $ X", [Blank, Token(w)]), ctx, reg)
         == Ok(El(Wildcard().(capture := MakeSymbol(w).name, keyField := NameKey)))
  {
    ActionTable();
    assert [Blank, Token(w)][1] == Token(w);
  }

  /** `X > x` with `x` an element: `X` is coerced to a call and `x`, focused, is appended to its
      captures; a value that is neither an element nor a call fails the assert. On an element
      `p` the result is a valid call with `x` as its only capture, and on a call it is valid
      whenever that call was valid and had no focus. */
  lemma NestElementImmediately(a: Ast, b: Ast, ctx: Context, reg: map<string, CatValue>, pv: Val, x: Element)
    requires Evaluate(a, ctx, reg) == Ok(pv) && Evaluate(b, ctx, reg) == Ok(El(x))
    ensures !(pv.El? || pv.Cl?) ==> Evaluate(Node("X > X", [a, b]), ctx, reg) == Err(AssertionFailed)
    ensures pv.El? || pv.Cl? ==>
      var parent := GuaranteeCall(pv, ctx).value;
      && Evaluate(Node("X > X", [a, b]), ctx, reg) == Ok(Cl(parent.(captures := parent.captures + [x.(focus := true)])))
      && (Valid(parent) && !Focus(parent) ==> Valid(parent.(captures := parent.captures + [x.(focus := true)])))
    ensures pv.El? ==>
      && Evaluate(Node("X > X", [a, b]), ctx, reg)
         == Ok(Cl(Call(pv.elem.(capture := NoName), [], [x.(focus := true)], ctx == InCall)))
      && Valid(Call(pv.elem.(capture := NoName), [], [x.(focus := true)], ctx == InCall))
  {
    EvaluateNesting(a, b, ctx, reg, pv, El(x));
    var x' := x.(focus := true);
    if pv.El? || pv.Cl? {
      var parent := GuaranteeCall(pv, ctx).value;
      if pv.El? {
        CoercedElementIsBlank(pv.elem, ctx);
      }
      if Valid(parent) && !Focus(parent) {
        AppendCaptureValid(parent, x');
      }
      if pv.El? {
        assert parent.captures + [x'] == [x'];
        assert parent.(captures := parent.captures + [x'])
            == Call(pv.elem.(capture := NoName), [], [x'], ctx == InCall);
      }
    }
  }

  /** `X > q` with `q` a call: `q`, marked immediate, is appended to the children of the
      coerced `X`; validity carries over from a valid, unfocused parent and a valid `q`. */
  lemma NestCallImmediately(a: Ast, b: Ast, ctx: Context, reg: map<string, CatValue>, pv: Val, q: Call)
    requires Evaluate(a, ctx, reg) == Ok(pv) && Evaluate(b, ctx, reg) == Ok(Cl(q))
    ensures !(pv.El? || pv.Cl?) ==> Evaluate(Node("X > X", [a, b]), ctx, reg) == Err(AssertionFailed)
    ensures pv.El? || pv.Cl? ==>
      var parent := GuaranteeCall(pv, ctx).value;
      && Evaluate(Node("X > X", [a, b]), ctx, reg) == Ok(Cl(parent.(children := parent.children + [q.(immediate := true)])))
      && (Valid(parent) && !Focus(parent) && Valid(q) ==> Valid(parent.(children := parent.children + [q.(immediate := true)])))
    ensures pv.El? ==> (Evaluate(Node("X > X", [a, b]), ctx, reg)
         == Ok(Cl(Call(pv.elem.(capture := NoName), [q.(immediate := true)], [], ctx == InCall))))
  {
    EvaluateNesting(a, b, ctx, reg, pv, Cl(q));
    if pv.El? || pv.Cl? {
      var parent := GuaranteeCall(pv, ctx).value;
      var q' := q.(immediate := true);
      if Valid(parent) && !Focus(parent) && Valid(q) {
        AppendChildValid(parent, q');
      }
      if pv.El? {
        assert [] + [q'] == [q'];
      }
    }
  }

  /** `X >> x` with `x` an element: a wildcard call capturing `x` with focus, not immediate, is
      appended to the children of the coerced `X`. */
  lemma NestElementDeep(a: Ast, b: Ast, ctx: Context, reg: map<string, CatValue>, pv: Val, x: Element)
    requires Evaluate(a, ctx, reg) == Ok(pv) && Evaluate(b, ctx, reg) == Ok(El(x))
    ensures !(pv.El? || pv.Cl?) ==> Evaluate(Node("X >> X", [a, b]), ctx, reg) == Err(AssertionFailed)
    ensures pv.El? || pv.Cl? ==>
      var parent := GuaranteeCall(pv, ctx).value;
      var inner := Call(Wildcard(), [], [x.(focus := true)], false);
      && Evaluate(Node("X >> X", [a, b]), ctx, reg) == Ok(Cl(parent.(children := parent.children + [inner])))
      && (Valid(parent) && !Focus(parent) ==> Valid(parent.(children := parent.children + [inner])))
    ensures pv.El? ==>
      && Evaluate(Node("X >> X", [a, b]), ctx, reg)
         == Ok(Cl(Call(pv.elem.(capture := NoName), [Call(Wildcard(), [], [x.(focus := true)], false)], [], ctx == InCall)))
      && Valid(Call(pv.elem.(capture := NoName), [Call(Wildcard(), [], [x.(focus := true)], false)], [], ctx == InCall))
  {
    EvaluateNesting(a, b, ctx, reg, pv, El(x));
    if pv.El? || pv.Cl? {
      var parent := GuaranteeCall(pv, ctx).value;
      var inner := Call(Wildcard(), [], [x.(focus := true)], false);
      SingleCaptureIsValid(Wildcard(), x.(focus := true), false);
      if Valid(parent) && !Focus(parent) {
        AppendChildValid(parent, inner);
      }
      if pv.El? {
        CoercedElementIsBlank(pv.elem, ctx);
        assert [] + [inner] == [inner];
      }
    }
  }

  /** `X >> q` with `q` a call: `q` is appended unchanged to the children of the coerced `X`. */
  lemma NestCallDeep(a: Ast, b: Ast, ctx: Context, reg: map<string, CatValue>, pv: Val, q: Call)
    requires Evaluate(a, ctx, reg) == Ok(pv) && Evaluate(b, ctx, reg) == Ok(Cl(q))
    ensures !(pv.El? || pv.Cl?) ==> Evaluate(Node("X >> X", [a, b]), ctx, reg) == Err(AssertionFailed)
    ensures pv.El? || pv.Cl? ==>
      var parent := GuaranteeCall(pv, ctx).value;
      && Evaluate(Node("X >> X", [a, b]), ctx, reg) == Ok(Cl(parent.(children := parent.children + [q])))
      && (Valid(parent) && !Focus(parent) && Valid(q) ==> Valid(parent.(children := parent.children + [q])))
    ensures pv.El? ==> (Evaluate(Node("X >> X", [a, b]), ctx, reg)
         == Ok(Cl(Call(pv.elem.(capture := NoName), [q], [], ctx == InCall))))
  {
    EvaluateNesting(a, b, ctx, reg, pv, Cl(q));
    if pv.El? || pv.Cl? {
      var parent := GuaranteeCall(pv, ctx).value;
      if Valid(parent) && !Focus(parent) && Valid(q) {
        AppendChildValid(parent, q);
      }
      if pv.El? {
        assert [] + [q] == [q];
      }
    }
  }

  /** The prefix forms `> X` and `>> X` coerce `X` to a call and fix its immediacy to true and
      false, whatever the context: a call keeps everything else, an element becomes an empty
      call on it, and any other value fails the assert. */
  lemma PrefixNesting(y: Ast, b: Ast, ctx: Context, reg: map<string, CatValue>, v: Val)
    requires Evaluate(b, ctx, reg) == Ok(v)
    ensures v.Cl? ==> Evaluate(Node("_ > X", [y, b]), ctx, reg) == Ok(Cl(v.call.(immediate := true)))
    ensures v.Cl? ==> Evaluate(Node("_ >> X", [y, b]), ctx, reg) == Ok(Cl(v.call.(immediate := false)))
    ensures v.El? ==> Evaluate(Node("_ > X", [y, b]), ctx, reg) == Ok(Cl(Call(v.elem.(capture := NoName), [], [], true)))
    ensures v.El? ==> Evaluate(Node("_ >> X", [y, b]), ctx, reg) == Ok(Cl(Call(v.elem.(capture := NoName), [], [], false)))
    ensures !(v.El? || v.Cl?) ==> Evaluate(Node("_ > X", [y, b]), ctx, reg) == Err(AssertionFailed)
    ensures !(v.El? || v.Cl?) ==> Evaluate(Node("_ >> X", [y, b]), ctx, reg) == Err(AssertionFailed)
  {
  }

  /** `x : c` gives `x` the category registered as `c`; an unregistered or integer name is a
      `KeyError`, and an element that already has a category cannot get another. */
  lemma ClassifyByName(a: Ast, c: string, ctx: Context, reg: map<string, CatValue>, x: Element)
    requires Evaluate(a, ctx, reg) == Ok(El(x))
    requires c != "*"
    ensures x.category.Some? ==> Evaluate(Node("X : X", [a, Token(c)]), ctx, reg) == Err(AssertionFailed)
    ensures x.category.None? && !IsIntWord(c) && c in reg
        ==> Evaluate(Node("X : X", [a, Token(c)]), ctx, reg) == Ok(El(x.(category := Some(reg[c]))))
    ensures x.category.None? && !IsIntWord(c) && c !in reg
        ==> Evaluate(Node("X : X", [a, Token(c)]), ctx, reg) == Err(KeyError(Str(c)))
    ensures x.category.None? && IsIntWord(c)
        ==> Evaluate(Node("X : X", [a, Token(c)]), ctx, reg) == Err(KeyError(Int(IntWordValue(c))))
  {
  }

  /** `:c` is an anonymous, uncaptured element of category `c`; it is invalid unless focused. */
  lemma BareClassIsAnonymous(y: Ast, c: string, ctx: Context, reg: map<string, CatValue>)
    requires PlainWord(c)
    ensures c in reg ==> Evaluate(Node("_ : X", [y, Token(c)]), ctx, reg) == Ok(El(Wildcard().(category := Some(reg[c]))))
    ensures c !in reg ==> Evaluate(Node("_ : X", [y, Token(c)]), ctx, reg) == Err(KeyError(Str(c)))
    ensures c in reg ==> !ElementValid(Wildcard().(category := Some(reg[c])))
  {
  }

  /** `!x` focuses an element and rejects a call. */
  lemma FocusMarksElements(y: Ast, b: Ast, ctx: Context, reg: map<string, CatValue>)
    requires Evaluate(b, ctx, reg).Ok?
    ensures Evaluate(b, ctx, reg).value.El? ==>
      Evaluate(Node("_ ! X", [y, b]), ctx, reg) == Ok(El(Evaluate(b, ctx, reg).value.elem.(focus := true)))
      && ElementValid(Evaluate(b, ctx, reg).value.elem.(focus := true))
    ensures Evaluate(b, ctx, reg).value.Cl? ==> Evaluate(Node("_ ! X", [y, b]), ctx, reg) == Err(AssertionFailed)
  {
  }

  /** A symbol: `*` is the anonymous element; a word `int()` accepts names an integer and
      captures nothing; any other word is both the name and the capture. Nothing else is set. */
  lemma SymbolCases(w: string, ctx: Context, reg: map<string, CatValue>)
    ensures Evaluate(Token(w), ctx, reg).Ok? && Evaluate(Token(w), ctx, reg).value.El?
    ensures var e := Evaluate(Token(w), ctx, reg).value.elem;
            && e.value == Absent && e.category == None && !e.focus && e.keyField == NoKeyField
            && (w == "*" ==> e.name == NoName && e.capture == NoName)
            && (w != "*" && IsIntWord(w) ==> e.name == Int(IntWordValue(w)) && e.capture == NoName)
            && (w != "*" && !IsIntWord(w) ==> e.name == Str(w) && e.capture == Str(w))
  {
  }

  /** `x as y` captures `x` under the name of `y`, and marks the name as its key field exactly
      when `x` is anonymous. */
  lemma AsSetsCapture(a: Ast, b: Ast, ctx: Context, reg: map<string, CatValue>, x: Element, y: Element)
    requires Evaluate(a, ctx, reg) == Ok(El(x)) && Evaluate(b, ctx, reg) == Ok(El(y))
    ensures Evaluate(Node("X as X", [a, b]), ctx, reg).Ok?
    ensures var e := Evaluate(Node("X as X", [a, b]), ctx, reg).value;
            && e.El? && e.elem.capture == y.name
            && e.elem.name == x.name && e.elem.value == x.value && e.elem.category == x.category
            && e.elem.focus == x.focus
            && (e.elem.keyField == NameKey <==> x.name == NoName)
            && (x.name != NoName ==> e.elem.keyField == NoKeyField)
  {
    assert Evaluate(Node("X as X", [a, b]), ctx, reg) == MakeAs(El(x), El(y));
  }

  /** `* as x` and `$x` denote the same element, for every word `x`. */
  lemma StarAsIsDollar(w: string, ctx: Context, reg: map<string, CatValue>)
    ensures Evaluate(Node("X as X", [Token("*"), Token(w)]), ctx, reg)
         == Evaluate(Node("_ $ X", [Blank, Token(w)]), ctx, reg)
    ensures Evaluate(Node("_ $ X", [Blank, Token(w)]), ctx, reg).Ok?
  {
  }

  /** `f[w]` matches the key literally without capturing it, while `f[$w]` captures the key as
      `w` and marks it as the element's value key. */
  lemma InstanceKeys(a: Ast, w: string, ctx: Context, reg: map<string, CatValue>, p: Element)
    requires Evaluate(a, ctx, reg) == Ok(El(p))
    requires PlainWord(w)
    ensures Evaluate(Node("X [ X ] _", [a, Token(w), Blank]), ctx, reg)
         == Ok(Cl(Call(p.(capture := NoName), [], [Element(Str("#key"), Is(Str(w)), None, NoName, false, NoKeyField)], ctx == InCall)))
    ensures Evaluate(Node("X [ X ] _", [a, Node("_ $ X", [Blank, Token(w)]), Blank]), ctx, reg)
         == Ok(Cl(Call(p.(capture := NoName), [], [Element(Str("#key"), Absent, None, Str(w), false, ValueKey)], ctx == InCall)))
  {
    var lit := Element(Str("#key"), Is(Str(w)), None, NoName, false, NoKeyField);
    var cap := Element(Str("#key"), Absent, None, Str(w), false, ValueKey);
    EvaluateInstance(a, Token(w), ctx, reg, El(p), El(MakeSymbol(w)));
    EvaluateDollarWord(w, ctx, reg);
    EvaluateInstance(a, Node("_ $ X", [Blank, Token(w)]), ctx, reg, El(p),
                     El(Wildcard().(capture := MakeSymbol(w).name, keyField := NameKey)));
    assert [] + [lit] == [lit];
    assert [] + [cap] == [cap];
  }

  /** `f[3]` matches the integer key literally, and `f[*]` matches any key without capturing
      it, as the element's value key. */
  lemma InstanceSpecialKeys(a: Ast, w: string, ctx: Context, reg: map<string, CatValue>, p: Element)
    requires Evaluate(a, ctx, reg) == Ok(El(p))
    ensures IsIntWord(w) && w != "*" ==>
      Evaluate(Node("X [ X ] _", [a, Token(w), Blank]), ctx, reg)
        == Ok(Cl(Call(p.(capture := NoName), [], [Element(Str("#key"), Is(Int(IntWordValue(w))), None, NoName, false, NoKeyField)], ctx == InCall)))
    ensures Evaluate(Node("X [ X ] _", [a, Token("*"), Blank]), ctx, reg)
         == Ok(Cl(Call(p.(capture := NoName), [], [Element(Str("#key"), Absent, None, NoName, false, ValueKey)], ctx == InCall)))
  {
    if IsIntWord(w) && w != "*" {
      var lit := Element(Str("#key"), Is(Int(IntWordValue(w))), None, NoName, false, NoKeyField);
      EvaluateInstance(a, Token(w), ctx, reg, El(p), El(MakeSymbol(w)));
      assert [] + [lit] == [lit];
    }
    var any := Element(Str("#key"), Absent, None, NoName, false, ValueKey);
    EvaluateInstance(a, Token("*"), ctx, reg, El(p), El(MakeSymbol("*")));
    assert [] + [any] == [any];
  }

  /** `x = w` stores the literal `w` and never captures. */
  lemma EqualsStoresLiteral(a: Ast, w: string, ctx: Context, reg: map<string, CatValue>, x: Element)
    requires Evaluate(a, ctx, reg) == Ok(El(x))
    ensures Evaluate(Node("X = X", [a, Token(w)]), ctx, reg)
         == Ok(El(x.(value := Is(MakeSymbol(w).name), capture := NoName)))
    ensures ElementCaptures(x.(value := Is(MakeSymbol(w).name), capture := NoName)) == {}
  {
  }

  /** The right-nested comma list `w0, w1, ...` of words. */
  function CommaChain(ws: seq<string>): Ast
    requires |ws| > 0
    decreases |ws|
  {
    if |ws| == 1 then Token(ws[0]) else Node("X , X", [Token(ws[0]), CommaChain(ws[1..])])
  }

  function SymbolElements(ws: seq<string>): (r: seq<Element>)
    ensures |r| == |ws|
  {
    seq(|ws|, i requires 0 <= i < |ws| => MakeSymbol(ws[i]))
  }

  function Symbols(ws: seq<string>): (r: seq<Val>)
    ensures |r| == |ws|
  {
    seq(|ws|, i requires 0 <= i < |ws| => El(MakeSymbol(ws[i])))
  }

  /** A comma list of two or more words evaluates to the list of their symbols, in order. */
  lemma {:induction false} EvaluateCommaChain(ws: seq<string>, ctx: Context, reg: map<string, CatValue>)
    requires |ws| >= 2
    ensures Evaluate(CommaChain(ws), ctx, reg) == Ok(Lst(Symbols(ws)))
    decreases |ws|
  {
    if |ws| == 2 {
      assert Symbols(ws) == [El(MakeSymbol(ws[0])), El(MakeSymbol(ws[1]))];
    } else {
      EvaluateCommaChain(ws[1..], ctx, reg);
      assert Symbols(ws) == [El(MakeSymbol(ws[0]))] + Symbols(ws[1..]);
    }
  }

  /** The symbols of a list of words, split off at the last word. */
  lemma SymbolsSnoc(ws: seq<string>)
    requires |ws| > 0
    ensures Symbols(ws) == Symbols(ws[..|ws| - 1]) + [El(MakeSymbol(ws[|ws| - 1]))]
    ensures SymbolElements(ws) == SymbolElements(ws[..|ws| - 1]) + [MakeSymbol(ws[|ws| - 1])]
  {
    var init := ws[..|ws| - 1];
    forall i | 0 <= i < |init|
      ensures Symbols(ws)[i] == Symbols(init)[i] && SymbolElements(ws)[i] == SymbolElements(init)[i]
    {
      assert ws[i] == init[i];
    }
  }

  lemma {:induction false} SymbolsAreElements(ws: seq<string>)
    ensures ElementsOf(Symbols(ws)) == SymbolElements(ws)
    ensures CallsOf(Symbols(ws)) == []
    decreases |ws|
  {
    if |ws| > 0 {
      var init := ws[..|ws| - 1];
      SymbolsAreElements(init);
      var x := MakeSymbol(ws[|ws| - 1]);
      SymbolsSnoc(ws);
      ValuesSnoc(Symbols(init), El(x));
    }
  }

  /** The names of `f{w0, w1, ...}`, evaluated in the `incall` context: the list of the
      symbols, or the one symbol. */
  lemma CommaChainNames(ws: seq<string>, reg: map<string, CatValue>)
    requires |ws| >= 1
    ensures Evaluate(CommaChain(ws), InCall, reg)
         == Ok(if |ws| >= 2 then Lst(Symbols(ws)) else El(MakeSymbol(ws[0])))
    ensures |ws| == 1 ==> Symbols(ws) == [El(MakeSymbol(ws[0]))]
  {
    if |ws| >= 2 {
      EvaluateCommaChain(ws, InCall, reg);
    } else {
      assert Symbols(ws)[0] == El(MakeSymbol(ws[0]));
    }
  }

  /** `f{w0, w1, ...}` is a call on `f` that captures the symbols of the words, in order, and
      has no children. */
  lemma CaptureList(a: Ast, ws: seq<string>, ctx: Context, reg: map<string, CatValue>, p: Element)
    requires |ws| >= 1
    requires Evaluate(a, ctx, reg) == Ok(El(p))
    ensures Evaluate(Node("X { X } _", [a, CommaChain(ws), Blank]), ctx, reg)
         == Ok(Cl(Call(p.(capture := NoName), [], SymbolElements(ws), ctx == InCall)))
  {
    SymbolsAreElements(ws);
    var names := if |ws| >= 2 then Lst(Symbols(ws)) else El(MakeSymbol(ws[0]));
    CommaChainNames(ws, reg);
    EvaluateCallCapture(a, CommaChain(ws), ctx, reg, El(p), names);
    var parent := Call(p.(capture := NoName), [], [], ctx == InCall);
    assert GuaranteeCall(El(p), ctx) == Ok(parent);
    assert [] + SymbolElements(ws) == SymbolElements(ws);
    assert [] + CallsOf(Symbols(ws)) == [];
    assert MakeCallCapture(El(p), names, ctx)
        == Ok(Cl(parent.(captures := [] + SymbolElements(ws), children := [] + CallsOf(Symbols(ws)))));
  }

  /** `f{$v}` is not a valid pattern: the capture `$v` is anonymous and not focused. */
  lemma DollarCaptureIsInvalid(a: Ast, v: string, ctx: Context, reg: map<string, CatValue>, p: Element)
    requires Evaluate(a, ctx, reg) == Ok(El(p))
    ensures Evaluate(Node("X { X } _", [a, Node("_ $ X", [Blank, Token(v)]), Blank]), ctx, reg).Ok?
    ensures !Valid(Evaluate(Node("X { X } _", [a, Node("_ $ X", [Blank, Token(v)]), Blank]), ctx, reg).value.call)
  {
    var d := Wildcard().(capture := MakeSymbol(v).name, keyField := NameKey);
    EvaluateDollarWord(v, InCall, reg);
    EvaluateCallCapture(a, Node("_ $ X", [Blank, Token(v)]), ctx, reg, El(p), El(d));
    assert [El(d)][..0] == [];
    assert ElementsOf([El(d)]) == [d];
    assert CallsOf([El(d)]) == [];
    assert [] + [d] == [d];
    assert !ElementValid(d);
  }

  /** Printing a symbol and reading the text back as a word gives the same symbol. */
  lemma SymbolRoundTrip(w: string)
    ensures MakeSymbol(EncodeElement(MakeSymbol(w))) == MakeSymbol(w)
  {
    if w != "*" && IsIntWord(w) {
      var v := IntWordValue(w);
      var s := NatToString(v);
      assert EncodeElement(MakeSymbol(w)) == s;
      NatToStringIsIntWord(v);
      assert s != "*" by {
        assert IsDigit(s[0]);
      }
    } else if w != "*" {
      assert EncodeElement(MakeSymbol(w)) == w;
    }
  }

  /** `to_pattern` of an element is a valid pattern with exactly one focus. */
  lemma ToPatternOfElement(e: Element)
    ensures ToPattern(El(e)).Ok?
    ensures Valid(ToPattern(El(e)).value) && FocusCount(ToPattern(El(e)).value) == 1
  {
    SingleCaptureIsValid(Wildcard(), e.(focus := true), false);
  }
}
