/** The pattern trees of ptera/selector.py (`Element`, `Call`) and their algebra:
    `all_captures`, `valid`, the derived `Call.focus`, `rewrite` and `encode`. */
module Selector {
  import opened Common
  import opened Text
  import opened Categories

  /** The Python objects that appear as names, captures and focus targets: `None`, a string
      (a word of the pattern) or an integer (a word `int()` accepts). */
  datatype Name = NoName | Str(s: string) | Int(i: int)

  /** An element's `value`: the `ABSENT` sentinel or a name. */
  datatype Value = Absent | Is(v: Name)

  /** An element's `key_field`: `None`, `"name"` or `"value"`. */
  datatype KeyField = NoKeyField | NameKey | ValueKey

  datatype Element = Element(
    name: Name,
    value: Value,
    category: Option<CatValue>,
    capture: Name,
    focus: bool,
    keyField: KeyField)

  datatype Call = Call(
    element: Element,
    children: seq<Call>,
    captures: seq<Element>,
    immediate: bool)

  /** `Element(name=n)` with every other field at its default. */
  function Named(n: Name): (e: Element)
    ensures e.name == n && e.value == Absent && e.category == None
    ensures e.capture == NoName && !e.focus && e.keyField == NoKeyField
  {
    Element(n, Absent, None, NoName, false, NoKeyField)
  }

  /** Python truthiness of a name: `None`, `""` and `0` are false. */
  predicate Truthy(n: Name) {
    match n
    case NoName => false
    case Str(s) => s != ""
    case Int(i) => i != 0
  }

  // ---------------------------------------------------------------------------
  // all_captures

  /** `Element.all_captures`: its capture, when that capture is truthy. */
  function ElementCaptures(e: Element): (r: set<Name>)
    ensures r <= {e.capture}
    ensures e.capture in r <==> Truthy(e.capture)
  {
    if Truthy(e.capture) then {e.capture} else {}
  }

  /** `n` is the capture of some element of `es`. */
  predicate CapturedAmong(es: seq<Element>, n: Name)
  {
    exists i :: 0 <= i < |es| && es[i].capture == n
  }

  /** The truthy capture names of a list of elements, and only those. */
  function CapturesOf(es: seq<Element>): (r: set<Name>)
    ensures forall n :: n in r <==> Truthy(n) && CapturedAmong(es, n)
  {
    if |es| == 0 then {} else CapturesOf(es[..|es| - 1]) + ElementCaptures(es[|es| - 1])
  }

  /** `Call.all_captures`: every truthy capture of every element in the captures of this call
      and, recursively, of its children. The call's own `element` is not included. */
  function AllCaptures(c: Call): (r: set<Name>)
    decreases c
    ensures forall n :: n in r ==> Truthy(n)
    ensures CapturesOf(c.captures) <= r
  {
    CapturesOf(c.captures) + ChildCaptures(c.children)
  }

  function ChildCaptures(cs: seq<Call>): (r: set<Name>)
    decreases cs
    ensures forall n :: n in r ==> Truthy(n)
    ensures forall i :: 0 <= i < |cs| ==> AllCaptures(cs[i]) <= r
  {
    if |cs| == 0 then {}
    else
      var init := cs[..|cs| - 1];
      assert forall i :: 0 <= i < |init| ==> init[i] == cs[i];
      ChildCaptures(init) + AllCaptures(cs[|cs| - 1])
  }

  /** `n` is the capture of some element in the captures of `c` or, recursively, of its
      children. */
  predicate CapturedIn(c: Call, n: Name)
    decreases c
  {
    CapturedAmong(c.captures, n) ||
    (exists j :: 0 <= j < |c.children| && CapturedIn(c.children[j], n))
  }

  /** `all_captures` collects exactly the truthy names captured somewhere in the call. */
  lemma {:induction false} AllCapturesExactly(c: Call, n: Name)
    ensures n in AllCaptures(c) <==> Truthy(n) && CapturedIn(c, n)
    decreases c, 1
  {
    ChildCapturesExactly(c.children, n);
  }

  /** The captures of a child list are exactly the truthy names captured in some child. */
  lemma {:induction false} ChildCapturesExactly(cs: seq<Call>, n: Name)
    ensures n in ChildCaptures(cs) <==> Truthy(n) && exists j :: 0 <= j < |cs| && CapturedIn(cs[j], n)
    decreases cs, 0
  {
    if |cs| > 0 {
      var init := cs[..|cs| - 1];
      var last := cs[|cs| - 1];
      ChildCapturesExactly(init, n);
      AllCapturesExactly(last, n);
      ChildCapturesUnfold(cs);
      CapturedInSplit(cs, init, n);
    }
  }

  /** Some child of `cs` captures `n` iff some child but the last does or the last does. */
  lemma CapturedInSplit(cs: seq<Call>, init: seq<Call>, n: Name)
    requires |cs| > 0 && init == cs[..|cs| - 1]
    ensures (exists j :: 0 <= j < |cs| && CapturedIn(cs[j], n)) <==>
            (exists j :: 0 <= j < |init| && CapturedIn(init[j], n)) || CapturedIn(cs[|cs| - 1], n)
  {
    if exists j :: 0 <= j < |cs| && CapturedIn(cs[j], n) {
      var j :| 0 <= j < |cs| && CapturedIn(cs[j], n);
      if j < |init| {
        assert init[j] == cs[j];
      }
    }
    if exists j :: 0 <= j < |init| && CapturedIn(init[j], n) {
      var j :| 0 <= j < |init| && CapturedIn(init[j], n);
      assert cs[j] == init[j];
    }
  }

  /** `ChildCaptures` unfolded once: the children but the last, and then the last. */
  lemma ChildCapturesUnfold(cs: seq<Call>)
    requires |cs| > 0
    ensures ChildCaptures(cs) == ChildCaptures(cs[..|cs| - 1]) + AllCaptures(cs[|cs| - 1])
  {
  }

  /** `Call.all_captures` as the source computes it: a set filled in a loop over the captures
      and then the children. */
  method CollectCaptures(c: Call) returns (r: set<Name>)
    decreases c
    ensures r == AllCaptures(c)
  {
    r := {};
    for i := 0 to |c.captures|
      invariant r == CapturesOf(c.captures[..i])
    {
      assert c.captures[..i + 1][..i] == c.captures[..i];
      r := r + ElementCaptures(c.captures[i]);
    }
    assert c.captures[..|c.captures|] == c.captures;
    for j := 0 to |c.children|
      invariant r == CapturesOf(c.captures) + ChildCaptures(c.children[..j])
    {
      assert c.children[..j + 1][..j] == c.children[..j];
      var sub := CollectCaptures(c.children[j]);
      r := r + sub;
    }
    assert c.children[..|c.children|] == c.children;
  }

  // ---------------------------------------------------------------------------
  // focus and valid

  /** `Element.valid`: an anonymous element is only meaningful when it is focused. */
  predicate ElementValid(e: Element) {
    if e.name == NoName then e.focus else true
  }

  /** The derived `Call.focus` property: some capture or child is focused. */
  predicate Focus(c: Call)
    decreases c
  {
    (exists i :: 0 <= i < |c.captures| && c.captures[i].focus)
    || (exists j :: 0 <= j < |c.children| && Focus(c.children[j]))
  }

  function CountFocused(es: seq<Element>): (n: nat)
    ensures n <= |es|
    ensures n == 0 <==> forall i :: 0 <= i < |es| ==> !es[i].focus
  {
    if |es| == 0 then 0
    else CountFocused(es[..|es| - 1]) + (if es[|es| - 1].focus then 1 else 0)
  }

  function CountFocusedChildren(cs: seq<Call>): (n: nat)
    ensures n <= |cs|
    ensures n == 0 <==> forall j :: 0 <= j < |cs| ==> !Focus(cs[j])
  {
    if |cs| == 0 then 0
    else CountFocusedChildren(cs[..|cs| - 1]) + (if Focus(cs[|cs| - 1]) then 1 else 0)
  }

  /** `sum(x.focus for x in captures + children)`. */
  function FocusCount(c: Call): (n: nat)
    ensures n == 0 <==> !Focus(c)
  {
    CountFocused(c.captures) + CountFocusedChildren(c.children)
  }

  /** `Call.valid`: every capture and child is valid and at most one of them is focused. */
  predicate Valid(c: Call)
    decreases c
  {
    && (forall i :: 0 <= i < |c.captures| ==> ElementValid(c.captures[i]))
    && (forall j :: 0 <= j < |c.children| ==> Valid(c.children[j]))
    && FocusCount(c) <= 1
  }

  // ---------------------------------------------------------------------------
  // rewrite

  /** `Element.rewrite(required, focus)`; a `focus` of `NoName` means no focus target. */
  function RewriteElement(e: Element, required: set<Name>, focus: Name): (r: Option<Element>)
    ensures r.Some? ==> r.value.name == e.name && r.value.category == e.category
    ensures r.Some? ==> r.value.value == e.value && r.value.keyField == e.keyField
    ensures r.Some? ==> r.value.capture == e.capture || r.value.capture == NoName
  {
    if focus != NoName && focus == e.capture then Some(e.(focus := true))
    else if focus == NoName && e.focus then Some(e)
    else if e.capture !in required then
      if e.value == Absent then None else Some(e.(capture := NoName, focus := false))
    else if focus != NoName then Some(e.(focus := false))
    else Some(e)
  }

  /** The case analysis of `Element.rewrite`. Without a target a focused element stays as it
      is, an element whose capture is not required is dropped when it has no value and otherwise
      loses its capture and focus, and any other element stays as it is. With a target `f`
      exactly the elements capturing `f` come out focused, and every other kept element comes out
      unfocused. */
  lemma RewriteElementCases(e: Element, required: set<Name>, f: Name)
    ensures f == NoName && e.focus ==> RewriteElement(e, required, f) == Some(e)
    ensures f == NoName && !e.focus && e.capture !in required ==>
              (RewriteElement(e, required, f).None? <==> e.value == Absent)
    ensures f == NoName && !e.focus && e.capture !in required && e.value != Absent ==>
              RewriteElement(e, required, f) == Some(e.(capture := NoName, focus := false))
    ensures f == NoName && !e.focus && e.capture in required ==> RewriteElement(e, required, f) == Some(e)
    ensures f != NoName && e.capture == f ==> RewriteElement(e, required, f) == Some(e.(focus := true))
    ensures f != NoName && e.capture != f && RewriteElement(e, required, f).Some? ==>
              !RewriteElement(e, required, f).value.focus
    ensures f != NoName && e.capture != f && e.capture in required ==>
              RewriteElement(e, required, f) == Some(e.(focus := false))
  {
  }

  /** The rewritten captures, with the dropped (`None`) ones filtered out. */
  function RewriteCaptures(es: seq<Element>, required: set<Name>, focus: Name): (r: seq<Element>)
    ensures |r| <= |es|
  {
    if |es| == 0 then []
    else
      RewriteCaptures(es[..|es| - 1], required, focus)
      + match RewriteElement(es[|es| - 1], required, focus)
        case None => []
        case Some(x) => [x]
  }

  /** `Call.rewrite(required, focus)`: captures and children are rewritten in order and the
      dropped ones removed; the call itself disappears when nothing is left. */
  function Rewrite(c: Call, required: set<Name>, focus: Name): (r: Option<Call>)
    decreases c
    ensures r.Some? ==> r.value.element == c.element && r.value.immediate == c.immediate
    ensures r.Some? ==> |r.value.captures| <= |c.captures| && |r.value.children| <= |c.children|
    ensures r.Some? ==> |r.value.captures| + |r.value.children| > 0
  {
    var caps := RewriteCaptures(c.captures, required, focus);
    var kids := RewriteChildren(c.children, required, focus);
    if caps == [] && kids == [] then None
    else Some(c.(captures := caps, children := kids))
  }

  function RewriteChildren(cs: seq<Call>, required: set<Name>, focus: Name): (r: seq<Call>)
    decreases cs
    ensures |r| <= |cs|
  {
    if |cs| == 0 then []
    else
      RewriteChildren(cs[..|cs| - 1], required, focus)
      + match Rewrite(cs[|cs| - 1], required, focus)
        case None => []
        case Some(x) => [x]
  }

  // ---------------------------------------------------------------------------
  // encode

  /** `f"{n}"` for a name. */
  function ShowName(n: Name): string {
    match n
    case NoName => "None"
    case Str(s) => s
    case Int(i) => IntToString(i)
  }

  /** The name part of `Element.encode`: `$cap` for an anonymous capturing element, otherwise
      the name (`*` when anonymous). */
  function NamePart(e: Element): string {
    if e.name == NoName && e.capture != NoName then "$" + ShowName(e.capture)
    else if e.name == NoName then "*"
    else ShowName(e.name)
  }

  /** The ` as cap` part, omitted when there is no capture or it repeats the name. */
  function CapturePart(e: Element): string {
    if e.name == NoName && e.capture != NoName then ""
    else if e.capture == NoName || e.capture == e.name then ""
    else " as " + ShowName(e.capture)
  }

  function CategoryPart(e: Element): string {
    if e.category.None? then "" else ":" + Show(e.category.value)
  }

  function ValuePart(e: Element): string {
    if e.value.Absent? then "" else "=" + ShowName(e.value.v)
  }

  /** `Element.encode`. */
  function EncodeElement(e: Element): string {
    (if e.focus then "!" else "") + NamePart(e) + CapturePart(e) + CategoryPart(e) + ValuePart(e)
  }

  /** `", ".join(parts)`. */
  function Join(parts: seq<string>): string {
    if |parts| == 0 then ""
    else if |parts| == 1 then parts[0]
    else Join(parts[..|parts| - 1]) + ", " + parts[|parts| - 1]
  }

  function ElementPieces(es: seq<Element>): (r: seq<string>)
    ensures |r| == |es|
  {
    if |es| == 0 then [] else ElementPieces(es[..|es| - 1]) + [EncodeElement(es[|es| - 1])]
  }

  /** A child as it is listed inside braces: immediate children carry a `> ` prefix. */
  function ChildPiece(c: Call): string
    decreases c, 1
  {
    if c.immediate then "> " + EncodeCall(c) else EncodeCall(c)
  }

  function ChildPieces(cs: seq<Call>): (r: seq<string>)
    decreases cs
    ensures |r| == |cs|
  {
    if |cs| == 0 then [] else ChildPieces(cs[..|cs| - 1]) + [ChildPiece(cs[|cs| - 1])]
  }

  /** `Call.encode`: the element, then, only when there is something to list, the encoded
      captures followed by the children, in braces. */
  function EncodeCall(c: Call): string
    decreases c, 0
  {
    EncodeElement(c.element) + Braced(ElementPieces(c.captures) + ChildPieces(c.children))
  }

  /** The member list in braces, or nothing when there are no members. */
  function Braced(parts: seq<string>): string {
    if parts == [] then "" else "{" + Join(parts) + "}"
  }

  lemma ElementPiecesSnoc(es: seq<Element>, i: int)
    requires 0 <= i < |es|
    ensures ElementPieces(es[..i + 1]) == ElementPieces(es[..i]) + [EncodeElement(es[i])]
  {
    assert es[..i + 1][..i] == es[..i];
  }

  lemma ChildPiecesSnoc(cs: seq<Call>, j: int)
    requires 0 <= j < |cs|
    ensures ChildPieces(cs[..j + 1]) == ChildPieces(cs[..j]) + [ChildPiece(cs[j])]
  {
    assert cs[..j + 1][..j] == cs[..j];
  }

  /** `Call.encode` as the source computes it, collecting the parts in a loop. */
  method Encode(c: Call) returns (s: string)
    decreases c, 1
    ensures s == EncodeCall(c)
  {
    var name := EncodeElement(c.element);
    var caps: seq<string> := [];
    for i := 0 to |c.captures|
      invariant caps == ElementPieces(c.captures[..i])
    {
      ElementPiecesSnoc(c.captures, i);
      caps := caps + [EncodeElement(c.captures[i])];
    }
    assert c.captures[..|c.captures|] == c.captures;
    var kids := EncodeChildren(c.children);
    caps := caps + kids;
    s := name + Braced(caps);
  }

  /** The loop of `Call.encode` over the children. */
  method EncodeChildren(cs: seq<Call>) returns (parts: seq<string>)
    decreases cs, 0
    ensures parts == ChildPieces(cs)
  {
    parts := [];
    for j := 0 to |cs|
      invariant parts == ChildPieces(cs[..j])
    {
      var enc := Encode(cs[j]);
      if cs[j].immediate {
        enc := "> " + enc;
      }
      ChildPiecesSnoc(cs, j);
      parts := parts + [enc];
    }
    assert cs[..|cs|] == cs;
  }

  // ---------------------------------------------------------------------------
  // Properties of rewrite

  function Kept(r: Option<Element>): seq<Element> {
    match r
    case None => []
    case Some(x) => [x]
  }

  function KeptCall(r: Option<Call>): seq<Call> {
    match r
    case None => []
    case Some(x) => [x]
  }

  lemma RewriteCapturesSnoc(es: seq<Element>, x: Element, required: set<Name>, focus: Name)
    ensures RewriteCaptures(es + [x], required, focus)
         == RewriteCaptures(es, required, focus) + Kept(RewriteElement(x, required, focus))
  {
    assert (es + [x])[..|es|] == es;
  }

  lemma RewriteChildrenSnoc(cs: seq<Call>, x: Call, required: set<Name>, focus: Name)
    ensures RewriteChildren(cs + [x], required, focus)
         == RewriteChildren(cs, required, focus) + KeptCall(Rewrite(x, required, focus))
  {
    assert (cs + [x])[..|cs|] == cs;
  }

  /** Rewriting an element twice with the same arguments changes nothing more. */
  lemma RewriteElementIdempotent(e: Element, required: set<Name>, focus: Name)
    requires RewriteElement(e, required, focus).Some?
    ensures RewriteElement(RewriteElement(e, required, focus).value, required, focus)
         == RewriteElement(e, required, focus)
  {
  }

  lemma {:induction false} RewriteCapturesIdempotent(es: seq<Element>, required: set<Name>, focus: Name)
    ensures RewriteCaptures(RewriteCaptures(es, required, focus), required, focus)
         == RewriteCaptures(es, required, focus)
    decreases |es|
  {
    if |es| > 0 {
      var init, x := es[..|es| - 1], es[|es| - 1];
      var a := RewriteCaptures(init, required, focus);
      RewriteCapturesIdempotent(init, required, focus);
      match RewriteElement(x, required, focus)
      case None =>
        assert a + [] == a;
      case Some(y) =>
        RewriteElementIdempotent(x, required, focus);
        RewriteCapturesSnoc(a, y, required, focus);
    }
  }

  /** `rewrite` is idempotent: rewriting its result again with the same arguments gives the
      same call. */
  lemma {:induction false} RewriteIdempotent(c: Call, required: set<Name>, focus: Name)
    requires Rewrite(c, required, focus).Some?
    ensures Rewrite(Rewrite(c, required, focus).value, required, focus) == Rewrite(c, required, focus)
    decreases c, 1
  {
    RewriteCapturesIdempotent(c.captures, required, focus);
    RewriteChildrenIdempotent(c.children, required, focus);
  }

  lemma {:induction false} RewriteChildrenIdempotent(cs: seq<Call>, required: set<Name>, focus: Name)
    ensures RewriteChildren(RewriteChildren(cs, required, focus), required, focus)
         == RewriteChildren(cs, required, focus)
    decreases cs, 0
  {
    if |cs| > 0 {
      var init, x := cs[..|cs| - 1], cs[|cs| - 1];
      var a := RewriteChildren(init, required, focus);
      RewriteChildrenIdempotent(init, required, focus);
      match Rewrite(x, required, focus)
      case None =>
        assert a + [] == a;
      case Some(y) =>
        RewriteIdempotent(x, required, focus);
        RewriteChildrenSnoc(a, y, required, focus);
    }
  }

  // Captures kept by rewrite

  /** The captures of the focused elements, which a rewrite without a focus target keeps. */
  function FocusedCapturesOf(es: seq<Element>): set<Name> {
    if |es| == 0 then {}
    else FocusedCapturesOf(es[..|es| - 1])
         + (if es[|es| - 1].focus then ElementCaptures(es[|es| - 1]) else {})
  }

  function FocusedCaptures(c: Call): set<Name>
    decreases c
  {
    FocusedCapturesOf(c.captures) + FocusedChildCaptures(c.children)
  }

  function FocusedChildCaptures(cs: seq<Call>): set<Name>
    decreases cs
  {
    if |cs| == 0 then {} else FocusedChildCaptures(cs[..|cs| - 1]) + FocusedCaptures(cs[|cs| - 1])
  }

  /** What a rewrite may leave captured besides `required`: the focused captures when there is
      no focus target, the target itself otherwise. */
  function Allowance(c: Call, focus: Name): set<Name> {
    if focus == NoName then FocusedCaptures(c) else {focus}
  }

  lemma CapturesOfSnoc(es: seq<Element>, x: Element)
    ensures CapturesOf(es + [x]) == CapturesOf(es) + ElementCaptures(x)
  {
    assert (es + [x])[..|es|] == es;
  }

  lemma ChildCapturesSnoc(cs: seq<Call>, x: Call)
    ensures ChildCaptures(cs + [x]) == ChildCaptures(cs) + AllCaptures(x)
  {
    assert (cs + [x])[..|cs|] == cs;
  }

  lemma {:induction false} RewriteCapturesBound(es: seq<Element>, required: set<Name>, focus: Name)
    ensures CapturesOf(RewriteCaptures(es, required, focus))
         <= required + (if focus == NoName then FocusedCapturesOf(es) else {focus})
    decreases |es|
  {
    if |es| > 0 {
      var init, x := es[..|es| - 1], es[|es| - 1];
      var a := RewriteCaptures(init, required, focus);
      RewriteCapturesBound(init, required, focus);
      match RewriteElement(x, required, focus)
      case None =>
        assert a + [] == a;
      case Some(y) =>
        CapturesOfSnoc(a, y);
    }
  }

  /** After `rewrite(required, focus)` the call captures nothing but the required names and,
      with no focus target, the captures of its focused elements, or else the target itself. */
  lemma {:induction false} RewriteCapturesWithin(c: Call, required: set<Name>, focus: Name)
    requires Rewrite(c, required, focus).Some?
    ensures AllCaptures(Rewrite(c, required, focus).value) <= required + Allowance(c, focus)
    decreases c, 1
  {
    RewriteCapturesBound(c.captures, required, focus);
    RewriteChildrenBound(c.children, required, focus);
  }

  lemma {:induction false} RewriteChildrenBound(cs: seq<Call>, required: set<Name>, focus: Name)
    ensures ChildCaptures(RewriteChildren(cs, required, focus))
         <= required + (if focus == NoName then FocusedChildCaptures(cs) else {focus})
    decreases cs, 0
  {
    if |cs| > 0 {
      var init, x := cs[..|cs| - 1], cs[|cs| - 1];
      var a := RewriteChildren(init, required, focus);
      RewriteChildrenBound(init, required, focus);
      match Rewrite(x, required, focus)
      case None =>
        assert a + [] == a;
      case Some(y) =>
        RewriteCapturesWithin(x, required, focus);
        ChildCapturesSnoc(a, y);
    }
  }

  // Focus and validity under a rewrite without a focus target

  lemma CountFocusedSnoc(es: seq<Element>, x: Element)
    ensures CountFocused(es + [x]) == CountFocused(es) + (if x.focus then 1 else 0)
  {
    assert (es + [x])[..|es|] == es;
  }

  lemma CountFocusedChildrenSnoc(cs: seq<Call>, x: Call)
    ensures CountFocusedChildren(cs + [x]) == CountFocusedChildren(cs) + (if Focus(x) then 1 else 0)
  {
    assert (cs + [x])[..|cs|] == cs;
  }

  lemma {:induction false} PruneCapturesKeepsFocus(es: seq<Element>, required: set<Name>)
    ensures CountFocused(RewriteCaptures(es, required, NoName)) == CountFocused(es)
    ensures (forall i :: 0 <= i < |es| ==> ElementValid(es[i]))
        ==> forall k :: 0 <= k < |RewriteCaptures(es, required, NoName)|
              ==> ElementValid(RewriteCaptures(es, required, NoName)[k])
    decreases |es|
  {
    if |es| > 0 {
      var init, x := es[..|es| - 1], es[|es| - 1];
      var a := RewriteCaptures(init, required, NoName);
      PruneCapturesKeepsFocus(init, required);
      match RewriteElement(x, required, NoName)
      case None =>
        assert a + [] == a;
      case Some(y) =>
        CountFocusedSnoc(a, y);
    }
  }

  /** Without a focus target, `rewrite` keeps focus exactly: a call that disappears had no
      focused part, and the rewritten call has as many focused parts as before. */
  lemma {:induction false} PruneKeepsFocus(c: Call, required: set<Name>)
    ensures Rewrite(c, required, NoName).None? ==> !Focus(c)
    ensures Rewrite(c, required, NoName).Some?
        ==> FocusCount(Rewrite(c, required, NoName).value) == FocusCount(c)
    decreases c, 1
  {
    PruneCapturesKeepsFocus(c.captures, required);
    PruneChildrenKeepsFocus(c.children, required);
  }

  lemma {:induction false} PruneChildrenKeepsFocus(cs: seq<Call>, required: set<Name>)
    ensures CountFocusedChildren(RewriteChildren(cs, required, NoName)) == CountFocusedChildren(cs)
    decreases cs, 0
  {
    if |cs| > 0 {
      var init, x := cs[..|cs| - 1], cs[|cs| - 1];
      var a := RewriteChildren(init, required, NoName);
      PruneChildrenKeepsFocus(init, required);
      PruneKeepsFocus(x, required);
      match Rewrite(x, required, NoName)
      case None =>
        assert a + [] == a;
      case Some(y) =>
        CountFocusedChildrenSnoc(a, y);
    }
  }

  /** Without a focus target, `rewrite` turns a valid call into a valid call. */
  lemma {:induction false} PrunePreservesValid(c: Call, required: set<Name>)
    requires Valid(c)
    requires Rewrite(c, required, NoName).Some?
    ensures Valid(Rewrite(c, required, NoName).value)
    decreases c, 1
  {
    PruneCapturesKeepsFocus(c.captures, required);
    PruneKeepsFocus(c, required);
    PruneChildrenValid(c.children, required);
  }

  lemma {:induction false} PruneChildrenValid(cs: seq<Call>, required: set<Name>)
    requires forall j :: 0 <= j < |cs| ==> Valid(cs[j])
    ensures forall k :: 0 <= k < |RewriteChildren(cs, required, NoName)|
              ==> Valid(RewriteChildren(cs, required, NoName)[k])
    decreases cs, 0
  {
    if |cs| > 0 {
      var init, x := cs[..|cs| - 1], cs[|cs| - 1];
      var a := RewriteChildren(init, required, NoName);
      PruneChildrenValid(init, required);
      match Rewrite(x, required, NoName)
      case None =>
        assert a + [] == a;
      case Some(y) =>
        PrunePreservesValid(x, required);
        assert forall k :: 0 <= k < |a + [y]| ==> Valid((a + [y])[k]);
    }
  }

  // Focus under a rewrite with a focus target

  /** Some capture of this call, or of one of its descendants, is captured as `f`. */
  predicate Mentions(c: Call, f: Name)
    decreases c
  {
    (exists i :: 0 <= i < |c.captures| && c.captures[i].capture == f)
    || (exists j :: 0 <= j < |c.children| && Mentions(c.children[j], f))
  }

  function CountCapturing(es: seq<Element>, f: Name): (n: nat)
    ensures n == 0 <==> forall i :: 0 <= i < |es| ==> es[i].capture != f
  {
    if |es| == 0 then 0
    else CountCapturing(es[..|es| - 1], f) + (if es[|es| - 1].capture == f then 1 else 0)
  }

  function CountMentioning(cs: seq<Call>, f: Name): (n: nat)
    ensures n == 0 <==> forall j :: 0 <= j < |cs| ==> !Mentions(cs[j], f)
  {
    if |cs| == 0 then 0
    else CountMentioning(cs[..|cs| - 1], f) + (if Mentions(cs[|cs| - 1], f) then 1 else 0)
  }

  /** How many direct parts of the call (captures and children) mention `f`. */
  function MentionCount(c: Call, f: Name): (n: nat)
    ensures n == 0 <==> !Mentions(c, f)
  {
    CountCapturing(c.captures, f) + CountMentioning(c.children, f)
  }

  /** Every focused element of the tree is captured as `f`. */
  predicate FocusedOnly(c: Call, f: Name)
    decreases c
  {
    && (forall i :: 0 <= i < |c.captures| && c.captures[i].focus ==> c.captures[i].capture == f)
    && (forall j :: 0 <= j < |c.children| ==> FocusedOnly(c.children[j], f))
  }

  lemma CountCapturingSnoc(es: seq<Element>, x: Element, f: Name)
    ensures CountCapturing(es + [x], f) == CountCapturing(es, f) + (if x.capture == f then 1 else 0)
  {
    assert (es + [x])[..|es|] == es;
  }

  lemma CountMentioningSnoc(cs: seq<Call>, x: Call, f: Name)
    ensures CountMentioning(cs + [x], f) == CountMentioning(cs, f) + (if Mentions(x, f) then 1 else 0)
  {
    assert (cs + [x])[..|cs|] == cs;
  }

  lemma {:induction false} RetargetCaptures(es: seq<Element>, required: set<Name>, f: Name)
    requires f != NoName
    ensures CountFocused(RewriteCaptures(es, required, f)) == CountCapturing(es, f)
    ensures forall k :: 0 <= k < |RewriteCaptures(es, required, f)| && RewriteCaptures(es, required, f)[k].focus
              ==> RewriteCaptures(es, required, f)[k].capture == f
    decreases |es|
  {
    if |es| > 0 {
      var init, x := es[..|es| - 1], es[|es| - 1];
      var a := RewriteCaptures(init, required, f);
      RetargetCaptures(init, required, f);
      RewriteCapturesUnfold(es, required, f);
      if RewriteElement(x, required, f).Some? {
        AppendFocusedOn(a, RewriteElement(x, required, f).value, f);
      }
    }
  }

  /** `RewriteCaptures` unfolded once: the last element is appended if its rewrite is kept. */
  lemma RewriteCapturesUnfold(es: seq<Element>, required: set<Name>, focus: Name)
    requires |es| > 0
    ensures RewriteElement(es[|es| - 1], required, focus).None? ==>
      RewriteCaptures(es, required, focus) == RewriteCaptures(es[..|es| - 1], required, focus)
    ensures RewriteElement(es[|es| - 1], required, focus).Some? ==>
      RewriteCaptures(es, required, focus)
        == RewriteCaptures(es[..|es| - 1], required, focus) + [RewriteElement(es[|es| - 1], required, focus).value]
  {
  }

  /** Appending an element, focused only if captured as `f`, to elements of that kind. */
  lemma AppendFocusedOn(a: seq<Element>, y: Element, f: Name)
    requires forall k :: 0 <= k < |a| && a[k].focus ==> a[k].capture == f
    requires y.focus ==> y.capture == f
    ensures forall k :: 0 <= k < |a + [y]| && (a + [y])[k].focus ==> (a + [y])[k].capture == f
    ensures CountFocused(a + [y]) == CountFocused(a) + (if y.focus then 1 else 0)
  {
    CountFocusedSnoc(a, y);
    forall k | 0 <= k < |a + [y]| && (a + [y])[k].focus
      ensures (a + [y])[k].capture == f
    {
      if k < |a| {
        assert (a + [y])[k] == a[k];
      }
    }
  }

  /** `rewrite(required, focus=f)` moves the focus onto `f`: afterwards exactly the parts that
      mention `f` are focused, every focused element is captured as `f`, and a call that
      disappears did not mention `f`. */
  lemma {:induction false} RetargetFocus(c: Call, required: set<Name>, f: Name)
    requires f != NoName
    ensures Rewrite(c, required, f).None? ==> !Mentions(c, f)
    ensures Rewrite(c, required, f).Some? ==>
      && FocusCount(Rewrite(c, required, f).value) == MentionCount(c, f)
      && (Focus(Rewrite(c, required, f).value) <==> Mentions(c, f))
      && FocusedOnly(Rewrite(c, required, f).value, f)
    decreases c, 1
  {
    RetargetCaptures(c.captures, required, f);
    RetargetChildren(c.children, required, f);
  }

  lemma {:induction false} RetargetChildren(cs: seq<Call>, required: set<Name>, f: Name)
    requires f != NoName
    ensures CountFocusedChildren(RewriteChildren(cs, required, f)) == CountMentioning(cs, f)
    ensures forall k :: 0 <= k < |RewriteChildren(cs, required, f)|
              ==> FocusedOnly(RewriteChildren(cs, required, f)[k], f)
    decreases cs, 0
  {
    if |cs| > 0 {
      var init, x := cs[..|cs| - 1], cs[|cs| - 1];
      var a := RewriteChildren(init, required, f);
      RetargetChildren(init, required, f);
      RetargetFocus(x, required, f);
      assert CountMentioning(cs, f) == CountMentioning(init, f) + (if Mentions(x, f) then 1 else 0);
      RewriteChildrenUnfold(cs, required, f);
      if Rewrite(x, required, f).Some? {
        AppendFocusedOnly(a, Rewrite(x, required, f).value, f);
      }
    }
  }

  /** `RewriteChildren` unfolded once: the last child is appended if its rewrite is kept. */
  lemma RewriteChildrenUnfold(cs: seq<Call>, required: set<Name>, focus: Name)
    requires |cs| > 0
    ensures Rewrite(cs[|cs| - 1], required, focus).None? ==>
      RewriteChildren(cs, required, focus) == RewriteChildren(cs[..|cs| - 1], required, focus)
    ensures Rewrite(cs[|cs| - 1], required, focus).Some? ==>
      RewriteChildren(cs, required, focus)
        == RewriteChildren(cs[..|cs| - 1], required, focus) + [Rewrite(cs[|cs| - 1], required, focus).value]
  {
  }

  /** Appending a call focused only on `f` to calls focused only on `f`. */
  lemma AppendFocusedOnly(a: seq<Call>, y: Call, f: Name)
    requires forall k :: 0 <= k < |a| ==> FocusedOnly(a[k], f)
    requires FocusedOnly(y, f)
    ensures forall k :: 0 <= k < |a + [y]| ==> FocusedOnly((a + [y])[k], f)
    ensures CountFocusedChildren(a + [y]) == CountFocusedChildren(a) + (if Focus(y) then 1 else 0)
  {
    CountFocusedChildrenSnoc(a, y);
    forall k | 0 <= k < |a + [y]|
      ensures FocusedOnly((a + [y])[k], f)
    {
      if k < |a| {
        assert (a + [y])[k] == a[k];
      }
    }
  }

  // Pruning a call down to nothing

  /** Nothing in the tree is focused, carries a value or is captured under a required name. */
  predicate Inert(c: Call, required: set<Name>)
    decreases c
  {
    && (forall i :: 0 <= i < |c.captures| ==>
          !c.captures[i].focus && c.captures[i].value == Absent && c.captures[i].capture !in required)
    && (forall j :: 0 <= j < |c.children| ==> Inert(c.children[j], required))
  }

  lemma {:induction false} InertCapturesVanish(es: seq<Element>, required: set<Name>)
    requires forall i :: 0 <= i < |es| ==>
      !es[i].focus && es[i].value == Absent && es[i].capture !in required
    ensures RewriteCaptures(es, required, NoName) == []
    decreases |es|
  {
    if |es| > 0 {
      InertCapturesVanish(es[..|es| - 1], required);
    }
  }

  /** A call in which nothing is focused, valued or required is pruned away entirely; in
      particular `rewrite(set())` removes every call without focus or literal values. */
  lemma {:induction false} InertRewritesToNone(c: Call, required: set<Name>)
    requires Inert(c, required)
    ensures Rewrite(c, required, NoName).None?
    decreases c, 1
  {
    InertCapturesVanish(c.captures, required);
    InertChildrenVanish(c.children, required);
  }

  lemma {:induction false} InertChildrenVanish(cs: seq<Call>, required: set<Name>)
    requires forall j :: 0 <= j < |cs| ==> Inert(cs[j], required)
    ensures RewriteChildren(cs, required, NoName) == []
    decreases cs, 0
  {
    if |cs| > 0 {
      InertChildrenVanish(cs[..|cs| - 1], required);
      InertRewritesToNone(cs[|cs| - 1], required);
    }
  }

  // ---------------------------------------------------------------------------
  // Properties of encode

  /** A piece of text free of the characters the encoding uses as markers. */
  predicate Clean(s: string) {
    forall i :: 0 <= i < |s| ==> s[i] != '!' && s[i] != ':' && s[i] != '=' && s[i] != '{' && s[i] != '}'
  }

  /** Every name, capture, category and value of the element prints without marker characters. */
  predicate CleanElement(e: Element) {
    && Clean(ShowName(e.name))
    && Clean(ShowName(e.capture))
    && (e.category.Some? ==> Clean(Show(e.category.value)))
    && (e.value.Is? ==> Clean(ShowName(e.value.v)))
  }

  lemma CleanHasNoMarker(s: string)
    requires Clean(s)
    ensures '!' !in s && ':' !in s && '=' !in s && '{' !in s && '}' !in s
  {
  }

  lemma CleanConcat(a: string, b: string)
    requires Clean(a) && Clean(b)
    ensures Clean(a + b)
  {
    assert forall i :: |a| <= i < |a + b| ==> (a + b)[i] == b[i - |a|];
  }

  lemma {:induction false} IntToStringIsClean(i: int)
    ensures Clean(IntToString(i))
  {
    var s := NatToString(if i < 0 then -i else i);
    assert AllDigits(s);
    if i < 0 {
      CleanConcat("-", s);
    }
  }

  lemma NameAndCapturePartsClean(e: Element)
    requires CleanElement(e)
    ensures Clean(NamePart(e) + CapturePart(e))
  {
    if e.name == NoName && e.capture != NoName {
      CleanConcat("$", ShowName(e.capture));
    } else if !(e.capture == NoName || e.capture == e.name) {
      CleanConcat(" as ", ShowName(e.capture));
    }
    CleanConcat(NamePart(e), CapturePart(e));
  }

  lemma CategoryPartMarkers(e: Element)
    requires CleanElement(e)
    ensures '!' !in CategoryPart(e) && '=' !in CategoryPart(e)
    ensures '{' !in CategoryPart(e) && '}' !in CategoryPart(e)
    ensures e.category.Some? <==> ':' in CategoryPart(e)
  {
    if e.category.Some? {
      CleanHasNoMarker(Show(e.category.value));
      assert CategoryPart(e)[0] == ':';
    }
  }

  lemma ValuePartMarkers(e: Element)
    requires CleanElement(e)
    ensures '!' !in ValuePart(e) && ':' !in ValuePart(e)
    ensures '{' !in ValuePart(e) && '}' !in ValuePart(e)
    ensures e.value.Is? <==> '=' in ValuePart(e)
  {
    if e.value.Is? {
      CleanHasNoMarker(ShowName(e.value.v));
      assert ValuePart(e)[0] == '=';
    }
  }

  /** For clean contents, `Element.encode` is unambiguous about the element's flags: the text
      begins with `!` exactly when the element is focused, contains `:` exactly when it has a
      category and `=` exactly when it has a value, and never contains a brace. */
  lemma EncodeElementMarkers(e: Element)
    requires CleanElement(e)
    ensures e.focus <==> |EncodeElement(e)| > 0 && EncodeElement(e)[0] == '!'
    ensures e.category.Some? <==> ':' in EncodeElement(e)
    ensures e.value.Is? <==> '=' in EncodeElement(e)
    ensures '{' !in EncodeElement(e) && '}' !in EncodeElement(e)
  {
    var enc := EncodeElement(e);
    NameAndCapturePartsClean(e);
    CleanHasNoMarker(NamePart(e) + CapturePart(e));
    CategoryPartMarkers(e);
    ValuePartMarkers(e);
    if e.focus {
      assert ((("!" + NamePart(e)) + CapturePart(e)) + CategoryPart(e)) + ValuePart(e) == enc;
    } else {
      assert ((("" + NamePart(e)) + CapturePart(e)) + CategoryPart(e)) + ValuePart(e) == enc;
      assert '!' !in enc;
      if |enc| > 0 {
        assert enc[0] in enc;
      }
    }
  }

  /** `Call.encode` opens a brace exactly when the call has captures or children. */
  lemma EncodeCallBraces(c: Call)
    requires CleanElement(c.element)
    ensures |c.captures| + |c.children| > 0 <==> '{' in EncodeCall(c)
  {
    EncodeElementMarkers(c.element);
    var parts := ElementPieces(c.captures) + ChildPieces(c.children);
    if parts != [] {
      assert Braced(parts)[0] == '{';
    }
  }

  /** The encoding forgets `key_field`, and a capture equal to the name is not written. */
  lemma EncodeForgets(e: Element, k: KeyField)
    ensures EncodeElement(e.(keyField := k)) == EncodeElement(e)
    ensures e.name != NoName ==> EncodeElement(e.(capture := e.name)) == EncodeElement(e.(capture := NoName))
  {
  }
}
